/** The validator's two DAG caches, and proof-of-work validation through them (pkg/consensus/validator.go). */
module DagCache {
  import opened Bytes
  import opened Codec
  import opened Types
  import opened DagSpec
  import opened DagNodes
  import opened DagObjects
  import opened Backends
  import opened Work

  /**
   * An allocator by name.  Heap allocators make a Go slice; for the others `canReuse` is
   * canValidationReuseMiningDAG's verdict, and each request may be refused or answered with any length.
   */
  datatype Allocator = HeapAllocator(name: string) | DeviceAllocator(name: string, canReuse: bool)
  {
    predicate CanReuse() { HeapAllocator? || canReuse }

    /** The length of what Alloc hands out, or None when it refuses; `offer` is what a device has for this request. */
    function Alloc(size: uint64, offer: Option<nat>): Option<nat> {
      if HeapAllocator? then Some(size) else offer
    }

    predicate Covers(size: uint64, offer: Option<nat>) {
      Alloc(size, offer).Some? && Alloc(size, offer).value >= size
    }
  }

  const SLICE_ALLOCATOR: Allocator := HeapAllocator("go-slice")

  // ----- Cache keys

  /** The key of a header's seed and size; the suffix is the cache's own. */
  function CacheKey(seed: Hash, size: uint64, suffix: string): string {
    HexEncode(seed.bytes) + "/" + FormatNat(size) + suffix
  }

  const SHARED := ""
  const FALLBACK := "/" + SLICE_ALLOCATOR.name + "/validation"

  /** Within one cache the key text determines the seed and the size. */
  lemma CacheKeyInjective(s1: Hash, n1: uint64, s2: Hash, n2: uint64, suffix: string)
    requires CacheKey(s1, n1, suffix) == CacheKey(s2, n2, suffix)
    ensures s1 == s2 && n1 == n2
  {
    var k1, k2 := CacheKey(s1, n1, suffix), CacheKey(s2, n2, suffix);
    assert k1[..64] == HexEncode(s1.bytes) && k2[..64] == HexEncode(s2.bytes);
    assert k1[65..|k1| - |suffix|] == FormatNat(n1) && k2[65..|k2| - |suffix|] == FormatNat(n2);
    HashRoundTrip(s1);
    HashRoundTrip(s2);
    DecimalRoundTrip(n1);
    DecimalRoundTrip(n2);
  }

  // ----- Allocations: held by one cached DAG, or freed exactly once

  /** The allocations the DAGs still have. */
  ghost function Allocs(dags: set<Dag>): set<Allocation>
    reads dags
  {
    set d | d in dags && d.alloc != null :: d.alloc
  }

  ghost function Bufs(dags: set<Dag>): set<array<byte>>
    reads dags
  {
    set d | d in dags && d.alloc != null :: d.alloc.buf
  }

  lemma PartsOfUnion(a: set<Dag>, b: set<Dag>)
    ensures Allocs(a + b) == Allocs(a) + Allocs(b)
    ensures Bufs(a + b) == Bufs(a) + Bufs(b)
  {
  }

  ghost predicate Held(dags: set<Dag>, a: Allocation)
    reads dags
  {
    exists d :: d in dags && d.alloc == a
  }

  ghost predicate Accounted(dags: set<Dag>, made: set<Allocation>)
    reads dags, made
  {
    && (forall d :: d in dags && d.alloc != null ==> d.ownership && d.alloc in made)
    && (forall d, e :: d in dags && e in dags && d != e && d.alloc != null ==> d.alloc != e.alloc)
    && (forall a :: a in made ==> a.frees == if Held(dags, a) then 0 else 1)
  }

  /** The DAG, its allocation and its bytes are what they were. */
  twostate predicate Untouched(e: Dag)
    reads e, e.alloc, if e.alloc == null then null else e.alloc.buf
  {
    && e.alloc == old(e.alloc) && e.ownership == old(e.ownership)
    && (e.alloc != null ==> e.alloc.frees == old(e.alloc.frees) && e.alloc.buf[..] == old(e.alloc.buf[..]))
  }

  /** Closing a cached DAG keeps the books, whether or not it stays cached elsewhere. */
  method CloseCached(d: Dag, ghost dags: set<Dag>, ghost made: set<Allocation>)
    requires d in dags && Accounted(dags, made)
    modifies d, d.alloc
    ensures d.alloc == null && Accounted(dags, made) && Accounted(dags - {d}, made)
    ensures forall e :: e in dags && e != d ==> Untouched(e)
  {
    ghost var freed := d.alloc;
    d.Close();
    forall a | a in made
      ensures a.frees == if Held(dags, a) then 0 else 1
      ensures a.frees == if Held(dags - {d}, a) then 0 else 1
    {
      if a != freed && old(Held(dags, a)) {
        var e :| e in dags && old(e.alloc) == a;
        assert e != d && e.alloc == a;
      }
    }
  }

  /** NewDAGWithAllocator: the allocator may refuse, or hand out too little; the bytes may hold anything. */
  method NewDag(spec: Spec, a: Allocator, offer: Option<nat>) returns (dag: Option<Dag>, ghost made: set<Allocation>)
    ensures dag.Some? <==> spec.Valid() && a.Covers(spec.dagSizeBytes, offer)
    ensures fresh(made)
    ensures dag.Some? ==>
      fresh(dag.value) && dag.value.alloc != null && fresh(dag.value.alloc) && fresh(dag.value.alloc.buf)
    ensures dag.Some? ==> dag.value.spec == spec && dag.value.ownership && made == {dag.value.alloc}
    ensures dag.Some? ==> spec.Valid() && dag.value.alloc.frees == 0 && dag.value.alloc.buf.Length >= spec.dagSizeBytes
    ensures dag.None? ==> forall m :: m in made ==> m.frees == if spec.Valid() then 1 else 0
  {
    var granted := a.Alloc(spec.dagSizeBytes, offer);
    if granted.None? {
      return None, {};
    }
    var alloc := new Allocation(granted.value);
    made := {alloc};
    if !spec.Valid() {
      return None, made;
    }
    if alloc.buf.Length < spec.dagSizeBytes {
      alloc.Free();
      return None, made;
    }
    var d := new Dag(spec, alloc, true);
    return Some(d), made;
  }

  /** A new DAG, allocated and filled; on failure whatever was allocated has been freed. */
  method NewFilledDag(c: Crypto, spec: Spec, seed: Hash, a: Allocator, offer: Option<nat>, workers: int, cpus: nat)
    returns (r: Option<Dag>, ghost obtained: set<Allocation>)
    requires spec.Valid() && spec.dagSizeBytes > 0 && 0 < cpus < TWO_TO_THE_64 && workers < TWO_TO_THE_64
    ensures r.Some? <==> a.Covers(spec.dagSizeBytes, offer)
    ensures fresh(obtained)
    ensures r.None? ==> forall m :: m in obtained ==> m.frees == 1
    ensures r.Some? ==> fresh(r.value) && r.value.alloc != null && fresh(r.value.alloc) && fresh(r.value.alloc.buf)
    ensures r.Some? ==> obtained == {r.value.alloc} && r.value.ownership && r.value.spec == spec
    ensures r.Some? ==> r.value.Usable() && r.value.Nodes() == TableOf(c, spec.mode, seed.bytes, spec.NodeCount())
  {
    r, obtained := NewDag(spec, a, offer);
    if r.Some? {
      var filled := PopulateDAG(c, r.value, seed.bytes, workers, cpus);
    }
  }

  lemma ValuesOfInsert<K, V>(m: map<K, V>, k: K, v: V)
    requires k !in m
    ensures m[k := v].Values == m.Values + {v}
  {
    forall x | x in m.Values
      ensures x in m[k := v].Values
    {
      var j :| j in m && m[j] == x;
      assert m[k := v][j] == x;
    }
    assert m[k := v][k] == v;
  }

  ghost predicate OneToOne(m: map<string, Dag>) {
    forall j, k :: j in m && k in m && j != k ==> m[j] != m[k]
  }

  lemma ValuesOfRemove(m: map<string, Dag>, k: string)
    requires k in m && OneToOne(m)
    ensures (m - {k}).Values == m.Values - {m[k]}
  {
    forall x | x in m.Values && x != m[k]
      ensures x in (m - {k}).Values
    {
      var j :| j in m && m[j] == x;
      assert (m - {k})[j] == x;
    }
  }

  // ----- The caches as a state machine on values

  /** What sealing, validating and reconfiguring ask of the caches; `offer` is what a device has at that time. */
  datatype Op =
    | Seal(header: Header, offer: Option<nat>)
    | Validate(header: Header, offer: Option<nat>)
    | SetBackend(allocator: Option<Allocator>)

  /** Sealing gets a DAG or none; validating gives a verdict or has no DAG to give one by. */
  datatype Verdict = Accepted | InvalidPoW | NoDag | Ready | Reconfigured | NotReached

  /** The allocator in use and the keys of both caches. */
  datatype Caches = Caches(allocator: Allocator, shared: set<string>, fallback: set<string>)
  {
    /** sharedMiningDAGForHeader succeeds: the DAG is cached, or can be allocated now. */
    predicate CanSeal(h: Header, offer: Option<nat>) {
      CacheKey(h.epochSeed, h.dagSizeBytes, SHARED) in shared || allocator.Covers(h.dagSizeBytes, offer)
    }

    /** validationDAGForHeader succeeds; with a DAG of the validator's own, always. */
    predicate CanValidate(h: Header, offer: Option<nat>) {
      allocator.CanReuse() ==> CanSeal(h, offer)
    }

    function AfterSeal(h: Header, offer: Option<nat>): Caches {
      if CanSeal(h, offer) then this.(shared := shared + {CacheKey(h.epochSeed, h.dagSizeBytes, SHARED)}) else this
    }

    function AfterValidate(h: Header, offer: Option<nat>): Caches {
      if allocator.CanReuse() then AfterSeal(h, offer)
      else this.(fallback := fallback + {CacheKey(h.epochSeed, h.dagSizeBytes, FALLBACK)})
    }

    function AfterSetBackend(a: Option<Allocator>): Caches {
      Caches(if a.Some? then a.value else allocator, {}, fallback)
    }
  }

  /** The verdict on a header with a DAG at hand or not; no cache content enters it. */
  function Judge(c: Crypto, spec: Spec, h: Header, available: bool): Verdict
    requires spec.nodeSize != 0
  {
    if !available then NoDag else if PowOk(c, spec, h) then Accepted else InvalidPoW
  }

  /**
   * Whether an operation gets as far as the caches: ValidateHeader checks the size first, and a template to seal
   * has the right one.
   */
  predicate Reaches(spec: Spec, op: Op)
    requires spec.Valid()
  {
    !op.SetBackend? ==> op.header.dagSizeBytes == spec.DagSizeForHeight(op.header.height)
  }

  function After(spec: Spec, s: Caches, op: Op): Caches
    requires spec.Valid()
  {
    if !Reaches(spec, op) then s
    else match op
      case Seal(h, offer) => s.AfterSeal(h, offer)
      case Validate(h, offer) => s.AfterValidate(h, offer)
      case SetBackend(a) => s.AfterSetBackend(a)
  }

  function VerdictOn(c: Crypto, spec: Spec, s: Caches, op: Op): Verdict
    requires spec.Valid()
  {
    if !Reaches(spec, op) then NotReached
    else match op
      case Seal(h, offer) => if s.CanSeal(h, offer) then Ready else NoDag
      case Validate(h, offer) => Judge(c, spec, h, s.CanValidate(h, offer))
      case SetBackend(_) => Reconfigured
  }

  /** The caches before operation i of a run. */
  function StateAt(spec: Spec, s: Caches, ops: seq<Op>, i: nat): Caches
    requires spec.Valid() && i <= |ops|
  {
    if i == 0 then s else After(spec, StateAt(spec, s, ops, i - 1), ops[i - 1])
  }

  class PowValidator {
    const crypto: Crypto
    const spec: Spec
    const workers: int
    const cpus: nat
    var miningAllocator: Allocator
    var shared: map<string, Dag>
    var fallback: map<string, Dag>
    ghost var made: set<Allocation>
    ghost var repr: set<object>

    /** The spec a cached DAG of this size carries, whatever height it was first built for. */
    function SpecFor(size: uint64): Spec { spec.(dagSizeBytes := size) }

    ghost function Dags(): set<Dag>
      reads this`shared, this`fallback
    {
      shared.Values + fallback.Values
    }

    /** Every allocation ever made is held by one cached DAG, or has been freed exactly once. */
    ghost predicate Books()
      reads this`shared, this`fallback, this`made, Dags(), made
    {
      Accounted(Dags(), made)
    }

    /** The DAG is open and its nodes are the table of this seed and size. */
    ghost predicate Holds(d: Dag, seed: Hash, size: uint64)
      reads d, d.alloc, if d.alloc == null then null else d.alloc.buf
    {
      && d.Usable() && d.spec == SpecFor(size)
      && d.Nodes() == TableOf(crypto, spec.mode, seed.bytes, SpecFor(size).NodeCount())
    }

    ghost predicate Entry(d: Dag, k: string, suffix: string)
      reads d, d.alloc, if d.alloc == null then null else d.alloc.buf
    {
      exists seed, size: uint64 :: k == CacheKey(seed, size, suffix) && Holds(d, seed, size)
    }

    /** Every DAG of the cache holds what its key says. */
    ghost predicate Entries(m: map<string, Dag>, suffix: string)
      reads m.Values, Allocs(m.Values), Bufs(m.Values)
    {
      forall k :: k in m ==> Entry(m[k], k, suffix)
    }

    /** Both caches hold what their keys say, and no DAG is cached twice. */
    ghost predicate Contents()
      reads this`shared, this`fallback, Dags(), Allocs(Dags()), Bufs(Dags())
    {
      && shared.Values !! fallback.Values && OneToOne(shared) && OneToOne(fallback)
      && Entries(shared, SHARED) && Entries(fallback, FALLBACK)
    }

    function State(): Caches
      reads this`miningAllocator, this`shared, this`fallback
    {
      Caches(miningAllocator, shared.Keys, fallback.Keys)
    }

    ghost predicate Closed()
      reads this`shared, this`fallback, this`made, this`repr, repr
    {
      this !in repr && made <= repr && Dags() <= repr && Allocs(Dags()) <= repr && Bufs(Dags()) <= repr
    }

    ghost predicate Valid()
      reads this`shared, this`fallback, this`made, this`repr, repr
    {
      && spec.Valid() && 0 < cpus < TWO_TO_THE_64 && workers < TWO_TO_THE_64
      && Closed() && Books() && Contents()
    }

    constructor (c: Crypto, spec: Spec, workers: int, cpus: nat)
      requires spec.Valid() && 0 < cpus < TWO_TO_THE_64 && workers < TWO_TO_THE_64
      ensures Valid() && made == {} && shared == map[] && fallback == map[] && fresh(repr)
      ensures this.crypto == c && this.spec == spec && miningAllocator == SLICE_ALLOCATOR
    {
      crypto, this.spec, this.workers, this.cpus := c, spec, workers, cpus;
      miningAllocator := SLICE_ALLOCATOR;
      shared, fallback, made, repr := map[], map[], {}, {};
    }

    /** A cached entry holds the table of the seed and size its key was made from. */
    lemma Hit(m: map<string, Dag>, seed: Hash, size: uint64, suffix: string)
      requires Entries(m, suffix) && CacheKey(seed, size, suffix) in m
      ensures Holds(m[CacheKey(seed, size, suffix)], seed, size)
    {
      hide TableOf;
      var key := CacheKey(seed, size, suffix);
      assert Entry(m[key], key, suffix);
      var s: Hash, n: uint64 :| key == CacheKey(s, n, suffix) && Holds(m[key], s, n);
      CacheKeyInjective(s, n, seed, size, suffix);
    }

    /** Caching a DAG that holds the table of the key's seed and size keeps the cache right. */
    lemma Admit(m: map<string, Dag>, d: Dag, seed: Hash, size: uint64, suffix: string)
      requires Entries(m, suffix) && OneToOne(m) && d !in m.Values && Holds(d, seed, size)
      requires CacheKey(seed, size, suffix) !in m
      ensures var grown := m[CacheKey(seed, size, suffix) := d];
        Entries(grown, suffix) && OneToOne(grown) && grown.Values == m.Values + {d}
    {
      hide CacheKey;
      hide TableOf;
      hide Holds;
      var key := CacheKey(seed, size, suffix);
      ValuesOfInsert(m, key, d);
      var grown := m[key := d];
      forall k | k in grown
        ensures Entry(grown[k], k, suffix)
      {
        assert k != key ==> Entry(m[k], k, suffix);
      }
    }

    /**
     * cachedDAGForHeader on one of the caches: a hit, or a DAG built, filled and added. A DAG that cannot be had
     * leaves the cache as it was and its allocation freed.
     */
    method CachedDag(seed: Hash, size: uint64, a: Allocator, offer: Option<nat>, cache: map<string, Dag>,
                     suffix: string)
      returns (r: Option<Dag>, after: map<string, Dag>)
      requires Valid() && size > 0 && SpecFor(size).Valid()
      requires cache.Values <= Dags() && Entries(cache, suffix) && OneToOne(cache)
      modifies this`made, this`repr
      ensures Closed() && Contents() && fresh(repr - old(repr)) && old(made) <= made
      ensures r.Some? ==> Holds(r.value, seed, size) && CacheKey(seed, size, suffix) in after
      ensures r.Some? ==> after[CacheKey(seed, size, suffix)] == r.value
      ensures Entries(after, suffix) && OneToOne(after) && Accounted(Dags() + after.Values, made)
      ensures after == cache
        || (r.Some? && CacheKey(seed, size, suffix) !in cache && after.Values == cache.Values + {r.value})
      ensures after != cache ==> r.value !in Dags() && r.value in repr
      ensures Allocs(Dags() + after.Values) <= repr && Bufs(Dags() + after.Values) <= repr
      ensures r.Some? <==> CacheKey(seed, size, suffix) in cache || a.Covers(size, offer)
      ensures after.Keys == if r.Some? then cache.Keys + {CacheKey(seed, size, suffix)} else cache.Keys
    {
      hide CacheKey;
      hide Accounted;
      hide Holds;
      hide Allocs;
      hide Bufs;
      var key := CacheKey(seed, size, suffix);
      assert Dags() + cache.Values == Dags();
      if key in cache {
        Hit(cache, seed, size, suffix);
        return Some(cache[key]), cache;
      }
      PartsOfUnion(Dags(), cache.Values);
      r := BuildDag(seed, size, a, offer, cache, suffix);
      after := cache;
      if r.Some? {
        Admit(cache, r.value, seed, size, suffix);
        assert Dags() + (cache.Values + {r.value}) == Dags() + {r.value};
        PartsOfUnion(Dags(), {r.value});
        after := cache[key := r.value];
      }
    }

    /** Builds and fills a DAG of this seed and size; the caches hold what they held. */
    method BuildDag(seed: Hash, size: uint64, a: Allocator, offer: Option<nat>,
                    ghost cache: map<string, Dag>, ghost suffix: string)
      returns (r: Option<Dag>)
      requires Valid() && SpecFor(size).Valid() && size > 0 && Entries(cache, suffix)
      requires cache.Values <= Dags() && Allocs(cache.Values) <= repr && Bufs(cache.Values) <= repr
      modifies this`made, this`repr
      ensures Closed() && Contents() && Entries(cache, suffix) && fresh(repr - old(repr)) && old(made) <= made
      ensures r.Some? <==> a.Covers(size, offer)
      ensures r.None? ==> Accounted(Dags(), made)
      ensures r.Some? ==> Holds(r.value, seed, size) && fresh(r.value) && Accounted(Dags() + {r.value}, made)
      ensures r.Some? ==> r.value in repr && Allocs({r.value}) <= repr && Bufs({r.value}) <= repr
    {
      hide CacheKey;
      hide TableOf;
      hide Accounted;
      hide Valid;
      hide Contents;
      hide Closed;
      hide Entries;
      hide Dags;
      ghost var obtained;
      SpecIsValid();
      r, obtained := NewFilledDag(crypto, SpecFor(size), seed, a, offer, workers, cpus);
      Book(r, obtained, cache, suffix);
      assert Dags() + {} == Dags();
    }

    /** Enters new allocations in the books: one DAG's, or only freed ones. */
    ghost method Book(d: Option<Dag>, obtained: set<Allocation>, cache: map<string, Dag>, suffix: string)
      requires Valid() && Entries(cache, suffix) && obtained !! made
      requires d.None? ==> forall a :: a in obtained ==> a.frees == 1
      requires d.Some? ==> d.value.alloc != null && obtained == {d.value.alloc} && d.value.alloc.frees == 0
      requires d.Some? ==> d.value !in Dags() && d.value.ownership
      modifies this`made, this`repr
      ensures Closed() && Contents() && Entries(cache, suffix)
      ensures made == old(made) + obtained
      ensures repr == old(repr) + obtained + if d.Some? then {d.value, d.value.alloc, d.value.alloc.buf} else {}
      ensures Accounted(Dags() + if d.Some? then {d.value} else {}, made)
    {
      hide TableOf;
      hide Accounted;
      hide Entry;
      if d.Some? {
        GrownBooks(Dags(), made, d.value);
        made, repr := made + obtained, repr + obtained + {d.value, d.value.alloc, d.value.alloc.buf};
      } else {
        FreedBooks(Dags(), made, obtained);
        made, repr := made + obtained, repr + obtained;
        assert Dags() + {} == Dags();
      }
    }

    lemma GrownBooks(dags: set<Dag>, before: set<Allocation>, d: Dag)
      requires Accounted(dags, before) && d !in dags
      requires d.alloc != null && d.ownership && d.alloc !in before && d.alloc.frees == 0
      ensures Accounted(dags + {d}, before + {d.alloc})
    {
      forall a | a in before
        ensures Held(dags, a) <==> Held(dags + {d}, a)
      {
      }
      assert d in dags + {d};
    }

    lemma FreedBooks(dags: set<Dag>, before: set<Allocation>, obtained: set<Allocation>)
      requires Accounted(dags, before) && obtained !! before && forall a :: a in obtained ==> a.frees == 1
      ensures Accounted(dags, before + obtained)
    {
      forall a | a in obtained
        ensures !Held(dags, a)
      {
      }
    }

    /** A grown cache, its DAGs in the books, may take the place of the one it grew from. */
    ghost predicate Grown(after: map<string, Dag>, before: map<string, Dag>, other: map<string, Dag>, suffix: string)
      reads this`made, this`repr, repr
    {
      && this !in repr && made <= repr && before.Values <= after.Values <= repr && other.Values <= repr
      && Allocs(after.Values + other.Values) <= repr && Bufs(after.Values + other.Values) <= repr
      && after.Values !! other.Values && OneToOne(after) && Entries(after, suffix)
      && Accounted(after.Values + other.Values, made)
    }

    method InstallShared(after: map<string, Dag>)
      requires spec.Valid() && 0 < cpus < TWO_TO_THE_64 && workers < TWO_TO_THE_64
      requires Contents() && Grown(after, shared, fallback, SHARED)
      modifies this`shared
      ensures Valid() && shared == after
    {
      hide CacheKey;
      hide TableOf;
      hide Accounted;
      hide Holds;
      hide Entries;
      hide Allocs;
      hide Bufs;
      PartsOfUnion(after.Values, fallback.Values);
      shared := after;
    }

    method InstallFallback(after: map<string, Dag>)
      requires spec.Valid() && 0 < cpus < TWO_TO_THE_64 && workers < TWO_TO_THE_64
      requires Contents() && Grown(after, fallback, shared, FALLBACK)
      modifies this`fallback
      ensures Valid() && fallback == after
    {
      hide CacheKey;
      hide TableOf;
      hide Accounted;
      hide Holds;
      hide Entries;
      hide Allocs;
      hide Bufs;
      PartsOfUnion(shared.Values, after.Values);
      assert shared.Values + after.Values == after.Values + shared.Values;
      fallback := after;
    }

    /** sharedMiningDAGForHeader: the cached DAG of the header's seed and size, built on first use. */
    method SharedMiningDag(h: Header, offer: Option<nat>) returns (r: Option<Dag>)
      requires Valid() && h.dagSizeBytes > 0 && SpecFor(h.dagSizeBytes).Valid()
      modifies this`made, this`repr, this`shared
      ensures Valid() && fallback == old(fallback) && fresh(repr - old(repr)) && old(made) <= made
      ensures r.Some? <==> old(State()).CanSeal(h, offer)
      ensures State() == old(State()).AfterSeal(h, offer)
      ensures r.Some? ==> Holds(r.value, h.epochSeed, h.dagSizeBytes)
    {
      hide CacheKey;
      hide TableOf;
      hide Accounted;
      hide Holds;
      hide Entries;
      hide Allocs;
      hide Bufs;
      var after;
      PartsOfUnion(shared.Values, fallback.Values);
      r, after := CachedDag(h.epochSeed, h.dagSizeBytes, miningAllocator, offer, shared, SHARED);
      assert Dags() + after.Values == after.Values + fallback.Values;
      InstallShared(after);
    }

    /** validationDAGForHeader: the mining DAG where the allocator allows it, else one of the validator's own. */
    method ValidationDag(h: Header, offer: Option<nat>) returns (r: Option<Dag>)
      requires Valid() && h.dagSizeBytes > 0 && SpecFor(h.dagSizeBytes).Valid()
      modifies this`made, this`repr, this`shared, this`fallback
      ensures Valid() && fresh(repr - old(repr)) && old(made) <= made
      ensures r.Some? <==> old(State()).CanValidate(h, offer)
      ensures State() == old(State()).AfterValidate(h, offer)
      ensures r.Some? ==> Holds(r.value, h.epochSeed, h.dagSizeBytes)
    {
      hide Valid;
      hide Holds;
      hide CacheKey;
      if miningAllocator.CanReuse() {
        r := SharedMiningDag(h, offer);
      } else {
        r := FallbackDag(h);
      }
    }

    /** The validator's own DAG of the header's seed and size; the slice allocator never refuses it. */
    method FallbackDag(h: Header) returns (r: Option<Dag>)
      requires Valid() && h.dagSizeBytes > 0 && SpecFor(h.dagSizeBytes).Valid()
      modifies this`made, this`repr, this`fallback
      ensures Valid() && shared == old(shared) && fresh(repr - old(repr)) && old(made) <= made
      ensures r.Some? && Holds(r.value, h.epochSeed, h.dagSizeBytes)
      ensures fallback.Keys == old(fallback.Keys) + {CacheKey(h.epochSeed, h.dagSizeBytes, FALLBACK)}
    {
      hide CacheKey;
      hide TableOf;
      hide Accounted;
      hide Holds;
      hide Entries;
      hide Allocs;
      hide Bufs;
      var after;
      PartsOfUnion(shared.Values, fallback.Values);
      r, after := CachedDag(h.epochSeed, h.dagSizeBytes, SLICE_ALLOCATOR, None, fallback, FALLBACK);
      assert Dags() + after.Values == after.Values + shared.Values;
      InstallFallback(after);
    }

    lemma SpecIsValid()
      requires Valid()
      ensures spec.Valid() && 0 < cpus < TWO_TO_THE_64 && workers < TWO_TO_THE_64
      ensures this !in repr && Dags() <= repr && made <= repr && Books()
    {
    }

    /**
     * validatePoW: from any cache state, a header past the size check is accepted exactly when the tableless
     * verifier accepts it and a DAG is cached or can be allocated; which of the two fails is told apart.
     */
    method ValidatePoW(h: Header, offer: Option<nat>) returns (v: Verdict)
      requires Valid() && h.dagSizeBytes == spec.DagSizeForHeight(h.height)
      modifies this`made, this`repr, this`shared, this`fallback
      ensures Valid() && fresh(repr - old(repr)) && old(made) <= made
      ensures v == Accepted <==> PowOk(crypto, spec, h) && old(State()).CanValidate(h, offer)
      ensures v == NoDag <==> !old(State()).CanValidate(h, offer)
      ensures v in {Accepted, InvalidPoW, NoDag} && State() == old(State()).AfterValidate(h, offer)
    {
      hide TableOf;
      hide HashOf;
      hide EncodeForMining;
      hide Valid;
      hide Caches.CanValidate;
      hide Caches.AfterValidate;
      SpecIsValid();
      PastSizeCheck(spec, h);
      var dag := ValidationDag(h, offer);
      if dag.None? {
        return NoDag;
      }
      var hash := ConsensusHash(crypto, EncodeForMining(h), h.nonce, dag.value);
      PowOkByTable(crypto, spec, h);
      var ok := LessOrEqualBE(hash.pow256, h.target);
      return if ok then Accepted else InvalidPoW;
    }

    /** SetMiningBackend: takes over the allocator and closes every shared DAG; fallback DAGs stay open. */
    method SetMiningBackend(allocator: Option<Allocator>)
      requires Valid()
      modifies this`miningAllocator, this`shared, Dags(), made
      ensures Valid() && shared == map[] && fallback == old(fallback) && made == old(made) && repr == old(repr)
      ensures State() == old(State()).AfterSetBackend(allocator)
    {
      hide Valid;
      SpecIsValid();
      if allocator.Some? {
        miningAllocator := allocator.value;
      }
      while shared != map[]
        invariant Valid() && fallback == old(fallback) && made == old(made) && repr == old(repr)
        invariant miningAllocator == (if allocator.Some? then allocator.value else old(miningAllocator))
        invariant shared.Values <= old(shared.Values)
        decreases |shared|
      {
        var k :| k in shared;
        EvictShared(k);
      }
    }

    method EvictShared(k: string)
      requires Valid() && k in shared
      modifies this`shared, shared[k], made
      ensures Valid() && fallback == old(fallback) && made == old(made) && repr == old(repr)
      ensures shared == old(shared) - {k} && shared.Values <= old(shared.Values)
    {
      hide TableOf;
      hide CacheKey;
      hide Accounted;
      hide Entry;
      hide Allocs;
      hide Bufs;
      hide Held;
      ghost var dags := Dags();
      var d := shared[k];
      ValuesOfRemove(shared, k);
      FewerEntries(shared, k, SHARED);
      AllocationIsBooked(dags, made, d);
      PartsOfUnion(dags - {d}, {d});
      assert dags - {d} + {d} == dags;
      CloseEntry(d, dags, shared - {k}, fallback);
      shared := shared - {k};
      assert Dags() == dags - {d};
    }

    lemma FewerEntries(m: map<string, Dag>, k: string, suffix: string)
      requires Entries(m, suffix)
      ensures Entries(m - {k}, suffix)
    {
      forall j | j in m - {k}
        ensures Entry((m - {k})[j], j, suffix)
      {
        assert Entry(m[j], j, suffix);
      }
    }

    lemma AllocsDiffer(d: Dag, dags: set<Dag>)
      requires d in dags && Accounted(dags, made)
      ensures forall e :: e in dags && e != d && e.alloc != null ==> e.alloc != d.alloc
    {
    }

    /** Closing one DAG leaves every other entry of a cache right. */
    method CloseEntry(d: Dag, ghost dags: set<Dag>, ghost m: map<string, Dag>, ghost n: map<string, Dag>)
      requires d in dags && Accounted(dags, made) && m.Values + n.Values <= dags - {d}
      requires Entries(m, SHARED) && Entries(n, FALLBACK)
      modifies d, d.alloc
      ensures d.alloc == null && Accounted(dags - {d}, made)
      ensures Entries(m, SHARED) && Entries(n, FALLBACK)
      ensures Allocs(dags - {d}) == old(Allocs(dags - {d})) && Bufs(dags - {d}) == old(Bufs(dags - {d}))
    {
      hide TableOf;
      hide CacheKey;
      hide Accounted;
      hide Entry;
      AllocsDiffer(d, dags);
      CloseCached(d, dags, made);
      forall k | k in m
        ensures Entry(m[k], k, SHARED)
      {
        assert m[k] in m.Values && old(Entry(m[k], k, SHARED));
      }
      forall k | k in n
        ensures Entry(n[k], k, FALLBACK)
      {
        assert n[k] in n.Values && old(Entry(n[k], k, FALLBACK));
      }
    }

    /**
     * Close: whatever the caches hold, even one DAG under several keys or in both, afterwards every allocation
     * ever made has been freed exactly once.
     */
    method Close()
      requires Books()
      modifies this`shared, this`fallback, Dags(), made
      ensures shared == map[] && fallback == map[] && made == old(made)
      ensures forall a :: a in made ==> a.frees == 1
    {
      hide Accounted;
      ghost var dags := Dags();
      var seen := CloseAll(fallback, {}, dags, made);
      fallback := map[];
      seen := CloseAll(shared, seen, dags, made);
      shared := map[];
      NobodyHolds(dags, made);
    }
  }

  /** Closes the DAGs of one cache that have not been closed yet. */
  method CloseAll(cache: map<string, Dag>, before: set<Dag>, ghost dags: set<Dag>, ghost made: set<Allocation>)
    returns (seen: set<Dag>)
    requires Accounted(dags, made) && before + cache.Values <= dags
    requires forall d :: d in before ==> d.alloc == null
    modifies dags, made
    ensures Accounted(dags, made) && seen == before + cache.Values
    ensures forall d :: d in seen ==> d.alloc == null
  {
    hide Held;
    hide Accounted;
    var rest := cache;
    seen := before;
    while rest != map[]
      invariant Accounted(dags, made) && rest.Values <= cache.Values
      invariant before <= seen <= before + cache.Values <= seen + rest.Values
      invariant forall d :: d in seen ==> d.alloc == null
      decreases |rest|
    {
      var k :| k in rest;
      var d := rest[k];
      assert d in rest.Values;
      if d !in seen {
        AllocationIsBooked(dags, made, d);
        CloseCached(d, dags, made);
        seen := seen + {d};
      }
      DroppedValue(rest, k);
      rest := rest - {k};
    }
  }

  lemma DroppedValue(m: map<string, Dag>, k: string)
    requires k in m
    ensures (m - {k}).Values <= m.Values <= (m - {k}).Values + {m[k]}
  {
    forall x | x in m.Values && x != m[k]
      ensures x in (m - {k}).Values
    {
      var j :| j in m && m[j] == x;
      assert (m - {k})[j] == x;
    }
  }

  lemma NobodyHolds(dags: set<Dag>, made: set<Allocation>)
    requires Accounted(dags, made) && forall d :: d in dags ==> d.alloc == null
    ensures forall a :: a in made ==> a.frees == 1
  {
  }

  lemma AllocationIsBooked(dags: set<Dag>, made: set<Allocation>, d: Dag)
    requires Accounted(dags, made) && d in dags
    ensures d.alloc != null ==> d.alloc in made
  {
  }

  /**
   * Any run of cached lookups and backend changes, then Close: the verdicts are those of the state machine on
   * values, and every allocation ever made has been freed exactly once.
   */
  method LifeCycle(v: PowValidator, ops: seq<Op>) returns (verdicts: seq<Verdict>)
    requires v.Valid()
    modifies v, v.repr
    ensures |verdicts| == |ops|
    ensures forall i :: 0 <= i < |ops| ==>
      verdicts[i] == VerdictOn(v.crypto, v.spec, StateAt(v.spec, old(v.State()), ops, i), ops[i])
    ensures old(v.made) <= v.made && forall a :: a in v.made ==> a.frees == 1
  {
    hide VerdictOn;
    hide After;
    verdicts := [];
    v.SpecIsValid();
    for n := 0 to |ops|
      invariant v.Valid() && fresh(v.repr - old(v.repr)) && old(v.made) <= v.made && |verdicts| == n
      invariant v.State() == StateAt(v.spec, old(v.State()), ops, n)
      invariant forall i :: 0 <= i < n ==>
        verdicts[i] == VerdictOn(v.crypto, v.spec, StateAt(v.spec, old(v.State()), ops, i), ops[i])
    {
      var verdict := Perform(v, ops[n]);
      verdicts := verdicts + [verdict];
    }
    v.SpecIsValid();
    v.Close();
  }

  /** One operation. */
  method Perform(v: PowValidator, op: Op) returns (verdict: Verdict)
    requires v.Valid()
    modifies v, v.repr
    ensures v.Valid() && fresh(v.repr - old(v.repr)) && old(v.made) <= v.made
    ensures verdict == VerdictOn(v.crypto, v.spec, old(v.State()), op)
    ensures v.State() == After(v.spec, old(v.State()), op)
  {
    hide PowOk;
    v.SpecIsValid();
    if !Reaches(v.spec, op) {
      return NotReached;
    }
    match op {
      case Seal(h, offer) =>
        PastSizeCheck(v.spec, h);
        var dag := v.SharedMiningDag(h, offer);
        verdict := if dag.Some? then Ready else NoDag;
      case Validate(h, offer) =>
        verdict := v.ValidatePoW(h, offer);
      case SetBackend(a) =>
        v.SetMiningBackend(a);
        verdict := Reconfigured;
    }
  }

  /** No allocator that validation depends on ever refuses: each is a heap allocator or not shared with validation. */
  predicate Dependable(a: Allocator) { a.HeapAllocator? || !a.CanReuse() }

  /** The first operations bring in only such allocators. */
  ghost predicate DependableOps(ops: seq<Op>, n: nat)
    requires n <= |ops|
  {
    forall k :: 0 <= k < n && ops[k].SetBackend? && ops[k].allocator.Some? ==> Dependable(ops[k].allocator.value)
  }

  lemma {:induction false} DependableThroughout(spec: Spec, s: Caches, ops: seq<Op>, i: nat)
    requires spec.Valid() && i <= |ops| && Dependable(s.allocator)
    requires DependableOps(ops, i)
    ensures Dependable(StateAt(spec, s, ops, i).allocator)
  {
    if i > 0 {
      DependableThroughout(spec, s, ops, i - 1);
    }
  }

  /**
   * Over any run, a header past the size check is accepted exactly when the tableless verifier accepts it and its
   * DAG was cached or could be allocated.  With dependable allocators throughout, the second condition always holds.
   */
  lemma RunVerdicts(c: Crypto, spec: Spec, s: Caches, ops: seq<Op>, i: nat)
    requires spec.Valid() && i < |ops| && ops[i].Validate? && Reaches(spec, ops[i])
    ensures var (before, op) := (StateAt(spec, s, ops, i), ops[i]);
      var verdict := VerdictOn(c, spec, before, op);
      && (verdict == Accepted <==> PowOk(c, spec, op.header) && before.CanValidate(op.header, op.offer))
      && (verdict == NoDag <==> !before.CanValidate(op.header, op.offer))
      && (Dependable(s.allocator) && DependableOps(ops, i) ==> (verdict == Accepted <==> PowOk(c, spec, op.header)))
  {
    hide PowOk;
    hide StateAt;
    if Dependable(s.allocator) && DependableOps(ops, i) {
      DependableThroughout(spec, s, ops, i);
    }
  }

  /** Past the size check, the cached DAG's spec is the resolved spec, and valid. */
  lemma PastSizeCheck(spec: Spec, h: Header)
    requires spec.Valid() && h.dagSizeBytes == spec.DagSizeForHeight(h.height)
    ensures h.dagSizeBytes > 0 && spec.(dagSizeBytes := h.dagSizeBytes).Valid()
  {
    hide Spec.DagSizeForEpoch;
    QuotientFits(h.height, spec.epochBlocks);
    SizeIsSaturatingGrowth(spec, h.height / spec.epochBlocks);
    ResolvedIsValid(spec, h.height);
  }

  lemma PowOkByTable(c: Crypto, spec: Spec, h: Header)
    requires spec.Valid() && h.dagSizeBytes == spec.DagSizeForHeight(h.height)
    ensures var cached := spec.(dagSizeBytes := h.dagSizeBytes);
      var table := TableOf(c, spec.mode, h.epochSeed.bytes, cached.NodeCount());
      PowOk(c, spec, h) <==> Meets(HashOf(c, cached, EncodeForMining(h), Some(h.nonce), table).pow256, h.target)
  {
    hide TableOf;
    hide HashOf;
    hide EncodeForMining;
  }

  /** The proof-of-work rule the validator enforces, stated without any cache. */
  function PowOk(c: Crypto, spec: Spec, h: Header): bool
    requires spec.nodeSize != 0
  {
    StatelessAccepts(c, spec.ResolvedForHeight(h.height), EncodeForMining(h), h.nonce, h.epochSeed.bytes, h.target)
  }
}
