/** Nodes that hold the same headers agree on work and tip, whatever order the blocks came in. */
module Convergence {
  import opened Bytes
  import opened Types
  import opened Work
  import opened ChainState
  import opened Consensus
  import opened ForkChoice

  /** Both stores hold the same headers; transactions, which the hash does not cover, may differ. */
  ghost predicate SameHeaders(a: map<Hash, Block>, b: map<Hash, Block>) {
    && a.Keys == b.Keys
    && forall h {:trigger a[h]} {:trigger b[h]} :: h in a ==> a[h].header == b[h].header
  }

  /** A block's total work is a function of the stored headers alone. */
  lemma {:induction false} WorkIsDetermined(hash: Header -> Hash, a: map<Hash, Block>, wa: map<Hash, int>,
                                            b: map<Hash, Block>, wb: map<Hash, int>, h: Hash)
    requires Tree(hash, a, wa) && Tree(hash, b, wb) && SameHeaders(a, b) && h in a
    ensures wa[h] == wb[h]
    decreases a[h].header.height
  {
    assert LinkedAt(hash, a, wa, h) && LinkedAt(hash, b, wb, h);
    if a[h].header.height > 0 {
      WorkIsDetermined(hash, a, wa, b, wb, a[h].header.parentHash);
    }
  }

  /** At most one stored block beats all others. */
  lemma BestIsUnique(s: Chain, x: Hash, y: Hash)
    requires s.work.Keys == s.blocks.Keys && x in s.blocks && y in s.blocks
    requires forall h :: h in s.blocks && h != x ==> Beats(s, x, h)
    requires forall h :: h in s.blocks && h != y ==> Beats(s, y, h)
    ensures x == y
  {
    if x != y {
      assert Beats(s, x, y) && Beats(s, y, x);
      OutranksIsTotal(x, s.work[x], y, s.work[y]);
    }
  }

  /** Two nodes with optimal tips and the same headers have the same works and the same tip. */
  lemma SameHeadersSameTip(hash: Header -> Hash, a: Chain, b: Chain)
    requires WellFormed(hash, a) && WellFormed(hash, b) && TipBest(a) && TipBest(b)
    requires SameHeaders(a.blocks, b.blocks)
    ensures a.work == b.work && a.tip == b.tip
  {
    forall h | h in a.blocks
      ensures a.work[h] == b.work[h]
    {
      WorkIsDetermined(hash, a.blocks, a.work, b.blocks, b.work, h);
    }
    if a.blocks != map[] {
      forall h | h in a.blocks && h != b.tip
        ensures Beats(a, b.tip, h)
      {
        assert Beats(b, b.tip, h);
      }
      BestIsUnique(a, a.tip, b.tip);
    } else {
      assert a.blocks.Keys == {} && b.blocks.Keys == {};
    }
  }

  /** Two serialised histories, from empty stores, that end with the same headers agree on works and tip. */
  lemma RunsConverge(rules: Rules, es: seq<Event>, fs: seq<Event>)
    requires rules.Valid()
    requires (forall e :: e in es ==> Sane(rules, e)) && (forall e :: e in fs ==> Sane(rules, e))
    requires SameHeaders(Run(rules, EMPTY_CHAIN, es).blocks, Run(rules, EMPTY_CHAIN, fs).blocks)
    ensures Run(rules, EMPTY_CHAIN, es).work == Run(rules, EMPTY_CHAIN, fs).work
    ensures Run(rules, EMPTY_CHAIN, es).tip == Run(rules, EMPTY_CHAIN, fs).tip
  {
    RunFromEmptyIsOptimal(rules, es);
    RunFromEmptyIsOptimal(rules, fs);
    SameHeadersSameTip(rules.hash, Run(rules, EMPTY_CHAIN, es), Run(rules, EMPTY_CHAIN, fs));
  }

  /** No height is contested. */
  ghost predicate OnePerHeight(blocks: map<Hash, Block>) {
    forall h, k :: h in blocks && k in blocks && blocks[h].header.height == blocks[k].header.height ==> h == k
  }

  /** Where no height is contested, the height index too is a function of the stored headers. */
  lemma SameHeadersSameIndex(hash: Header -> Hash, a: Chain, b: Chain)
    requires WellFormed(hash, a) && WellFormed(hash, b) && SameHeaders(a.blocks, b.blocks) && OnePerHeight(a.blocks)
    ensures a.heights == b.heights
  {
    IndexIncluded(a, b);
    IndexIncluded(b, a);
  }

  lemma IndexIncluded(a: Chain, b: Chain)
    requires Indexed(a.blocks, a.heights) && Indexed(b.blocks, b.heights)
    requires SameHeaders(a.blocks, b.blocks) && OnePerHeight(a.blocks)
    ensures forall k :: k in a.heights ==> k in b.heights && b.heights[k] == a.heights[k]
  {
    forall k | k in a.heights
      ensures k in b.heights && b.heights[k] == a.heights[k]
    {
      assert IndexedAt(a.blocks, a.heights, k);
      assert b.blocks[a.heights[k]].header.height == k;
      assert IndexedAt(b.blocks, b.heights, k);
    }
  }

  // ----- Arrival order

  /** A block with the clock reading at which it arrives. */
  type Arrival = (Block, int64)

  function Deliver(rules: Rules, s: Chain, xs: seq<Arrival>): Chain
    requires rules.Valid()
    decreases |xs|
  {
    if xs == [] then s else Deliver(rules, Insert(rules, s, xs[0].0, xs[0].1).0, xs[1..])
  }

  /** The header can be accepted at that time once its parent is present. */
  predicate Eligible(rules: Rules, x: Arrival)
    requires rules.Valid()
  {
    SelfConsistent(rules, x.0.header) && Timely(x.0.header, x.1) && rules.HashOf(x.0) != ZERO_HASH
  }

  /** Roots, or children of a header already present. */
  predicate ParentPresent(known: map<Hash, Header>, h: Header) {
    if h.height == 0 then h.parentHash == ZERO_HASH
    else h.parentHash in known && Extends(known[h.parentHash], h)
  }

  function HeadersOf(s: Chain): map<Hash, Header> {
    map h | h in s.blocks :: s.blocks[h].header
  }

  /** Every arrival's parent is already known or arrives earlier. */
  ghost predicate ParentsFirst(rules: Rules, known: map<Hash, Header>, xs: seq<Arrival>)
    requires rules.Valid()
    decreases |xs|
  {
    xs == [] ||
    (ParentPresent(known, xs[0].0.header)
     && ParentsFirst(rules, known[rules.HashOf(xs[0].0) := xs[0].0.header], xs[1..]))
  }

  /** No two different headers among the known ones and the arrivals share a hash. */
  ghost predicate DistinctlyHashed(rules: Rules, known: map<Hash, Header>, xs: seq<Arrival>) {
    && (forall i, j :: 0 <= i < |xs| && 0 <= j < |xs| && rules.HashOf(xs[i].0) == rules.HashOf(xs[j].0)
          ==> xs[i].0.header == xs[j].0.header)
    && (forall i :: 0 <= i < |xs| && rules.HashOf(xs[i].0) in known ==> known[rules.HashOf(xs[i].0)] == xs[i].0.header)
  }

  ghost predicate Carries(xs: seq<Arrival>, h: Header) {
    exists x :: x in xs && x.0.header == h
  }

  /** The headers known after all of `xs` have been accepted. */
  function Absorb(rules: Rules, known: map<Hash, Header>, xs: seq<Arrival>): map<Hash, Header>
    decreases |xs|
  {
    if xs == [] then known else Absorb(rules, known[rules.HashOf(xs[0].0) := xs[0].0.header], xs[1..])
  }

  /** The sequence can be delivered to the store completely. */
  ghost predicate Deliverable(rules: Rules, s: Chain, xs: seq<Arrival>)
    requires rules.Valid()
  {
    && (forall x :: x in xs ==> Eligible(rules, x))
    && ParentsFirst(rules, HeadersOf(s), xs) && DistinctlyHashed(rules, HeadersOf(s), xs)
  }

  lemma DeliverOne(rules: Rules, s: Chain, x: Arrival)
    requires rules.Valid() && WellFormed(rules.hash, s) && TipBest(s)
    requires Eligible(rules, x) && Attaches(s.blocks, x.0.header)
    requires rules.HashOf(x.0) in s.blocks ==> s.blocks[rules.HashOf(x.0)].header == x.0.header
    ensures var t := Insert(rules, s, x.0, x.1).0;
            WellFormed(rules.hash, t) && TipBest(t) && HeadersOf(t) == HeadersOf(s)[rules.HashOf(x.0) := x.0.header]
  {
    hide WellFormed;
    hide TipBestExcept;
    hide Insert;
    hide ValidateHeader;
    AcceptedMeans(rules, s, x.0.header, x.1);
    InsertKeepsInvariant(rules, s, x.0, x.1, {});
  }

  lemma DistinctTail(rules: Rules, known: map<Hash, Header>, xs: seq<Arrival>)
    requires xs != [] && DistinctlyHashed(rules, known, xs)
    ensures DistinctlyHashed(rules, known[rules.HashOf(xs[0].0) := xs[0].0.header], xs[1..])
    ensures rules.HashOf(xs[0].0) in known ==> known[rules.HashOf(xs[0].0)] == xs[0].0.header
  {
    assert forall i :: 0 <= i < |xs[1..]| ==> xs[1..][i] == xs[i + 1];
  }

  /** Delivered parents-first, every eligible block is stored: the result is the union of all headers. */
  lemma {:induction false} DeliveryStoresAll(rules: Rules, s: Chain, xs: seq<Arrival>)
    requires rules.Valid() && WellFormed(rules.hash, s) && TipBest(s)
    requires Deliverable(rules, s, xs)
    ensures var t := Deliver(rules, s, xs);
            WellFormed(rules.hash, t) && TipBest(t) && HeadersOf(t) == Absorb(rules, HeadersOf(s), xs)
    decreases |xs|
  {
    if xs != [] {
      assert xs[0] in xs;
      DistinctTail(rules, HeadersOf(s), xs);
      DeliverOne(rules, s, xs[0]);
      DeliveryStoresAll(rules, Insert(rules, s, xs[0].0, xs[0].1).0, xs[1..]);
    }
  }

  /** An event that brings a block from outside or from the node's own miner, as an arrival. */
  function ArrivalOf(e: Event): Arrival
    requires !e.InitGenesis?
  {
    (e.block, e.now)
  }

  function ArrivalsOf(es: seq<Event>): (xs: seq<Arrival>)
    requires forall e :: e in es ==> !e.InitGenesis?
    ensures |xs| == |es| && forall i :: 0 <= i < |es| ==> xs[i] == ArrivalOf(es[i])
  {
    seq(|es|, i requires 0 <= i < |es| => ArrivalOf(es[i]))
  }

  /** Blocks from peers and from the miner are delivered alike. */
  lemma StepDelivers(rules: Rules, s: Chain, e: Event)
    requires rules.Valid() && WellFormed(rules.hash, s) && !e.InitGenesis? && rules.HashOf(e.block) != ZERO_HASH
    ensures Step(rules, s, e) == Insert(rules, s, e.block, e.now).0
  {
    hide WellFormed;
    hide Grown;
    hide Insert;
    hide Acceptable;
    StepIsExact(rules, s, e);
    InsertGrows(rules, s, e.block, e.now);
  }

  /** A run of such events is a delivery, and parents-first it stores every header, whichever way each one came. */
  lemma {:induction false} RunStoresAll(rules: Rules, s: Chain, es: seq<Event>)
    requires rules.Valid() && WellFormed(rules.hash, s) && TipBest(s) && forall e :: e in es ==> !e.InitGenesis?
    requires Deliverable(rules, s, ArrivalsOf(es))
    ensures Run(rules, s, es) == Deliver(rules, s, ArrivalsOf(es))
    ensures HeadersOf(Run(rules, s, es)) == Absorb(rules, HeadersOf(s), ArrivalsOf(es))
    decreases |es|
  {
    hide WellFormed;
    hide TipBestExcept;
    hide Step;
    hide Insert;
    var xs := ArrivalsOf(es);
    DeliveryStoresAll(rules, s, xs);
    if es != [] {
      assert es[0] in es && xs[0] in xs;
      StepDelivers(rules, s, es[0]);
      DistinctTail(rules, HeadersOf(s), xs);
      DeliverOne(rules, s, xs[0]);
      assert xs[1..] == ArrivalsOf(es[1..]);
      RunStoresAll(rules, Step(rules, s, es[0]), es[1..]);
    }
  }

  /** What is known at the end: the start, plus exactly the arrivals. */
  lemma {:induction false} AbsorbIsUnion(rules: Rules, known: map<Hash, Header>, xs: seq<Arrival>)
    requires DistinctlyHashed(rules, known, xs)
    ensures var all := Absorb(rules, known, xs);
            && (forall h :: h in known ==> h in all && all[h] == known[h])
            && (forall x :: x in xs ==> rules.HashOf(x.0) in all && all[rules.HashOf(x.0)] == x.0.header)
            && (forall h :: h in all && h !in known ==> Carries(xs, all[h]) && rules.hash(all[h]) == h)
    decreases |xs|
  {
    if xs != [] {
      var h := rules.HashOf(xs[0].0);
      var known' := known[h := xs[0].0.header];
      var all := Absorb(rules, known', xs[1..]);
      assert all == Absorb(rules, known, xs);
      DistinctTail(rules, known, xs);
      AbsorbIsUnion(rules, known', xs[1..]);
      assert h in known' && all[h] == xs[0].0.header;
      assert xs[0] in xs;
      forall k | k in all && k !in known
        ensures Carries(xs, all[k]) && rules.hash(all[k]) == k
      {
        if k != h {
          assert k !in known' && Carries(xs[1..], all[k]);
          CarriedBefore(xs, all[k]);
        }
      }
    }
  }

  lemma CarriedBefore(xs: seq<Arrival>, h: Header)
    requires xs != [] && Carries(xs[1..], h)
    ensures Carries(xs, h)
  {
    var x :| x in xs[1..] && x.0.header == h;
    assert x in xs;
  }

  /** The same headers arrive in both sequences, in any order, with any repetition and any clocks. */
  ghost predicate SameArrivals(xs: seq<Arrival>, ys: seq<Arrival>) {
    forall h :: Carries(xs, h) <==> Carries(ys, h)
  }

  /**
   * Convergence: under one validity rule, any two parents-first orders of the same valid, distinctly hashed
   * blocks, delivered to the same store, end with the same headers, the same works and the same tip.
   */
  lemma OrderDoesNotMatter(rules: Rules, s: Chain, xs: seq<Arrival>, ys: seq<Arrival>)
    requires rules.Valid() && WellFormed(rules.hash, s) && TipBest(s)
    requires Deliverable(rules, s, xs) && Deliverable(rules, s, ys) && SameArrivals(xs, ys)
    ensures SameHeaders(Deliver(rules, s, xs).blocks, Deliver(rules, s, ys).blocks)
    ensures Deliver(rules, s, xs).work == Deliver(rules, s, ys).work
    ensures Deliver(rules, s, xs).tip == Deliver(rules, s, ys).tip
    ensures OnePerHeight(Deliver(rules, s, xs).blocks) ==>
      Deliver(rules, s, xs).heights == Deliver(rules, s, ys).heights
  {
    hide WellFormed;
    hide TipBest;
    var a, b := Deliver(rules, s, xs), Deliver(rules, s, ys);
    DeliveryStoresAll(rules, s, xs);
    DeliveryStoresAll(rules, s, ys);
    UnionIncluded(rules, HeadersOf(s), xs, ys);
    UnionIncluded(rules, HeadersOf(s), ys, xs);
    SameHeaderMaps(a, b);
    SameHeadersSameTip(rules.hash, a, b);
    if OnePerHeight(a.blocks) {
      SameHeadersSameIndex(rules.hash, a, b);
    }
  }

  lemma SameHeaderMaps(a: Chain, b: Chain)
    requires forall h :: h in HeadersOf(a) ==> h in HeadersOf(b) && HeadersOf(b)[h] == HeadersOf(a)[h]
    requires forall h :: h in HeadersOf(b) ==> h in HeadersOf(a)
    ensures SameHeaders(a.blocks, b.blocks)
  {
    assert forall h :: h in a.blocks <==> h in HeadersOf(a);
    assert forall h :: h in b.blocks <==> h in HeadersOf(b);
  }

  lemma UnionIncluded(rules: Rules, known: map<Hash, Header>, xs: seq<Arrival>, ys: seq<Arrival>)
    requires DistinctlyHashed(rules, known, xs) && DistinctlyHashed(rules, known, ys) && SameArrivals(xs, ys)
    ensures forall h :: h in Absorb(rules, known, xs) ==>
              h in Absorb(rules, known, ys) && Absorb(rules, known, ys)[h] == Absorb(rules, known, xs)[h]
  {
    AbsorbIsUnion(rules, known, xs);
    AbsorbIsUnion(rules, known, ys);
    forall h | h in Absorb(rules, known, xs)
      ensures h in Absorb(rules, known, ys) && Absorb(rules, known, ys)[h] == Absorb(rules, known, xs)[h]
    {
      if h !in known {
        assert Carries(ys, Absorb(rules, known, xs)[h]);
        var y :| y in ys && y.0.header == Absorb(rules, known, xs)[h];
      }
    }
  }

  // ----- What arrival order does decide

  /** The last arrival at this height that was not known when it came. */
  function LastNewAt(rules: Rules, known: set<Hash>, xs: seq<Arrival>, height: uint64): Option<Hash>
    decreases |xs|
  {
    if xs == [] then None
    else
      var h := rules.HashOf(xs[0].0);
      var later := LastNewAt(rules, known + {h}, xs[1..], height);
      if later.Some? then later
      else if h !in known && xs[0].0.header.height == height then Some(h)
      else None
  }

  lemma {:induction false} LastIsNew(rules: Rules, known: set<Hash>, xs: seq<Arrival>, height: uint64)
    ensures LastNewAt(rules, known, xs, height).Some? ==> LastNewAt(rules, known, xs, height).value !in known
    decreases |xs|
  {
    if xs != [] {
      LastIsNew(rules, known + {rules.HashOf(xs[0].0)}, xs[1..], height);
    }
  }

  /** The index after a delivery: the last new block at each height, and elsewhere what it was. */
  lemma {:induction false} DeliveryIndexes(rules: Rules, s: Chain, xs: seq<Arrival>, height: uint64)
    requires rules.Valid() && WellFormed(rules.hash, s) && TipBest(s)
    requires Deliverable(rules, s, xs)
    ensures var (t, last) := (Deliver(rules, s, xs), LastNewAt(rules, s.blocks.Keys, xs, height));
      && (height in t.heights <==> last.Some? || height in s.heights)
      && (height in t.heights ==> t.heights[height] == if last.Some? then last.value else s.heights[height])
    decreases |xs|
  {
    hide WellFormed;
    hide TipBest;
    if xs != [] {
      assert xs[0] in xs;
      DistinctTail(rules, HeadersOf(s), xs);
      DeliverOne(rules, s, xs[0]);
      IndexAfterOne(rules, s, xs[0]);
      var t := Insert(rules, s, xs[0].0, xs[0].1).0;
      DeliveryIndexes(rules, t, xs[1..], height);
    }
  }

  lemma IndexAfterOne(rules: Rules, s: Chain, x: Arrival)
    requires rules.Valid() && WellFormed(rules.hash, s) && TipBest(s)
    requires Eligible(rules, x) && Attaches(s.blocks, x.0.header)
    ensures var (t, h) := (Insert(rules, s, x.0, x.1).0, rules.HashOf(x.0));
      && t.blocks.Keys == s.blocks.Keys + {h}
      && t.heights == if h in s.blocks then s.heights else s.heights[x.0.header.height := h]
  {
    hide Indexed;
    hide Anchored;
    if rules.HashOf(x.0) in s.blocks {
      InsertKeepsInvariant(rules, s, x.0, x.1, {});
    } else {
      InsertIndexes(rules, s, x);
    }
  }

  predicate AgreeAt(a: map<uint64, Hash>, b: map<uint64, Hash>, k: uint64) {
    (k in a <==> k in b) && (k in a && k in b ==> a[k] == b[k])
  }

  lemma AgreeEverywhere(a: map<uint64, Hash>, b: map<uint64, Hash>)
    ensures a == b <==> forall k: uint64 :: AgreeAt(a, b, k)
  {
    if forall k: uint64 :: AgreeAt(a, b, k) {
      assert forall k :: k in a ==> AgreeAt(a, b, k);
      assert forall k :: k in b ==> AgreeAt(a, b, k);
    }
  }

  /** The last new arrival at this height is the same in both orders. */
  predicate SameLast(rules: Rules, known: set<Hash>, xs: seq<Arrival>, ys: seq<Arrival>, height: uint64) {
    LastNewAt(rules, known, xs, height) == LastNewAt(rules, known, ys, height)
  }

  lemma AgreeMeansSameLast(rules: Rules, s: Chain, xs: seq<Arrival>, ys: seq<Arrival>, k: uint64)
    requires rules.Valid() && WellFormed(rules.hash, s) && TipBest(s)
    requires Deliverable(rules, s, xs) && Deliverable(rules, s, ys)
    ensures AgreeAt(Deliver(rules, s, xs).heights, Deliver(rules, s, ys).heights, k)
      <==> SameLast(rules, s.blocks.Keys, xs, ys, k)
  {
    hide TipBest;
    DeliveryIndexes(rules, s, xs, k);
    DeliveryIndexes(rules, s, ys, k);
    LastIsNew(rules, s.blocks.Keys, xs, k);
    LastIsNew(rules, s.blocks.Keys, ys, k);
    assert k in s.heights ==> IndexedAt(s.blocks, s.heights, k);
  }

  /**
   * The height index keeps the block stored last at each height, so it is not a property of the stored headers.
   * Exactly: two parents-first orders leave the same index if and only if, at every height, the last new arrival is
   * the same in both.
   */
  lemma IndexAgreesExactly(rules: Rules, s: Chain, xs: seq<Arrival>, ys: seq<Arrival>)
    requires rules.Valid() && WellFormed(rules.hash, s) && TipBest(s)
    requires Deliverable(rules, s, xs) && Deliverable(rules, s, ys)
    ensures Deliver(rules, s, xs).heights == Deliver(rules, s, ys).heights
      <==> forall k: uint64 :: SameLast(rules, s.blocks.Keys, xs, ys, k)
  {
    hide *;
    forall k: uint64
      ensures AgreeAt(Deliver(rules, s, xs).heights, Deliver(rules, s, ys).heights, k)
        <==> SameLast(rules, s.blocks.Keys, xs, ys, k)
    {
      AgreeMeansSameLast(rules, s, xs, ys, k);
    }
    AgreeEverywhere(Deliver(rules, s, xs).heights, Deliver(rules, s, ys).heights);
  }

  /** For two new blocks: the index is the same both ways round exactly when they have different heights. */
  lemma HeightIndexDependsOnOrder(rules: Rules, s: Chain, a: Arrival, b: Arrival)
    requires rules.Valid() && WellFormed(rules.hash, s) && TipBest(s)
    requires Eligible(rules, a) && Eligible(rules, b)
    requires Attaches(s.blocks, a.0.header) && Attaches(s.blocks, b.0.header)
    requires rules.HashOf(a.0) !in s.blocks && rules.HashOf(b.0) !in s.blocks && rules.HashOf(a.0) != rules.HashOf(b.0)
    ensures Deliver(rules, s, [a, b]).heights == Deliver(rules, s, [b, a]).heights
      <==> a.0.header.height != b.0.header.height
  {
    hide WellFormed;
    hide TipBest;
    hide Deliver;
    DeliverTwo(rules, s, a, b);
    DeliverTwo(rules, s, b, a);
    var (x, y) := (Deliver(rules, s, [a, b]).heights, Deliver(rules, s, [b, a]).heights);
    if a.0.header.height == b.0.header.height {
      assert x[b.0.header.height] == rules.HashOf(b.0) && y[b.0.header.height] == rules.HashOf(a.0);
    }
  }

  lemma InsertIndexes(rules: Rules, s: Chain, x: Arrival)
    requires rules.Valid() && WellFormed(rules.hash, s) && TipBest(s)
    requires Eligible(rules, x) && Attaches(s.blocks, x.0.header) && rules.HashOf(x.0) !in s.blocks
    ensures var t := Insert(rules, s, x.0, x.1).0;
            && WellFormed(rules.hash, t) && TipBest(t)
            && t.blocks == s.blocks[rules.HashOf(x.0) := x.0]
            && t.heights == s.heights[x.0.header.height := rules.HashOf(x.0)]
  {
    hide Indexed;
    hide Anchored;
    AcceptedMeans(rules, s, x.0.header, x.1);
    InsertKeepsInvariant(rules, s, x.0, x.1, {});
    InsertOutcomes(rules, s, x.0, x.1);
  }

  lemma DeliverTwo(rules: Rules, s: Chain, a: Arrival, b: Arrival)
    requires rules.Valid() && WellFormed(rules.hash, s) && TipBest(s)
    requires Eligible(rules, a) && Eligible(rules, b)
    requires Attaches(s.blocks, a.0.header) && Attaches(s.blocks, b.0.header)
    requires rules.HashOf(a.0) !in s.blocks && rules.HashOf(b.0) !in s.blocks && rules.HashOf(a.0) != rules.HashOf(b.0)
    ensures Deliver(rules, s, [a, b]).heights
            == s.heights[a.0.header.height := rules.HashOf(a.0)][b.0.header.height := rules.HashOf(b.0)]
  {
    hide WellFormed;
    hide TipBest;
    hide Insert;
    var t := Insert(rules, s, a.0, a.1).0;
    InsertIndexes(rules, s, a);
    InsertIndexes(rules, t, b);
    assert [a, b][1..] == [b] && [b][1..] == [];
    calc {
      Deliver(rules, s, [a, b]);
      Deliver(rules, t, [b]);
      Deliver(rules, Insert(rules, t, b.0, b.1).0, []);
      Insert(rules, t, b.0, b.1).0;
    }
  }
}
