/** The batch search (mineBatch in colossusx/miner.go) and how it relates to the concurrent one. */
module BatchMiner {
  import opened Bytes
  import opened DagSpec
  import opened DagObjects
  import opened Accessors
  import opened StrictHash
  import opened LatticeHash
  import opened Work
  import opened Backends
  import Miner

  const DEFAULT_BATCH: uint64 := 100000

  /** What a search returns: the winning nonce and how many hashes it took. */
  datatype Found = Found(nonce: uint64, hashes: uint64)

  function Limit(maxNonces: uint64): uint64 { if maxNonces == 0 then DEFAULT_BATCH else maxNonces }

  /** The search as the concurrent miner would see it: same hash, same target, same range. */
  function JobOf(c: Crypto, spec: Spec, header: seq<byte>, target: Target, start: uint64, maxNonces: uint64,
                 workers: nat, table: seq<Bytes64>): Miner.Job
  {
    var meets := (n: uint64) => Meets(LatticeHashOf(c, spec, header, Some(n), table).pow256, target);
    Miner.Job(workers, start, maxNonces, meets)
  }

  /** The host backends that hash batches; one that reads the raw buffer may also report an error. */
  datatype BatchBackend = OnCpu(cpu: CpuBackend) | OnUnified(unified: UnifiedBackend) | OnRawBuffer(fails: bool)

  ghost function Objects(backend: BatchBackend): set<object>
    reads if backend.OnCpu? then backend.cpu else null, if backend.OnUnified? then backend.unified else null
  {
    match backend
    case OnCpu(cpu) => {cpu, cpu.nodes}
    case OnUnified(unified) => {unified, unified.buf}
    case OnRawBuffer(_) => {}
  }

  ghost predicate Sound(backend: BatchBackend)
    reads Objects(backend)
  {
    match backend
    case OnCpu(cpu) => cpu.nodes.Length < TWO_TO_THE_64
    case OnUnified(unified) => unified.Valid()
    case OnRawBuffer(_) => true
  }

  /** The node table the backend hashes on. */
  ghost function TableFor(backend: BatchBackend, dag: Dag): seq<Bytes64>
    requires Sound(backend) && dag.Usable()
    reads Objects(backend), dag, dag.alloc, if dag.alloc == null then null else dag.alloc.buf
  {
    match backend
    case OnCpu(cpu) => cpu.TableFor(dag)
    case OnUnified(unified) => unified.TableFor(dag)
    case OnRawBuffer(_) => dag.Nodes()
  }

  ghost function SpecFor(backend: BatchBackend, dag: Dag): Spec
    reads Objects(backend)
  {
    match backend
    case OnCpu(cpu) => cpu.SpecFor(dag)
    case OnUnified(unified) => unified.SpecFor(dag)
    case OnRawBuffer(_) => dag.spec
  }

  /** The least satisfying nonce of the job's range, if there is one. */
  ghost predicate IsLeast(job: Miner.Job, n: uint64) {
    job.InRange(n) && job.meets(n) && forall m: uint64 :: job.start <= m < n ==> !job.meets(m)
  }

  /** What the batch search found, as a caller sees it. */
  ghost predicate BatchOutcome(job: Miner.Job, r: Option<uint64>) {
    && (r.Some? ==> IsLeast(job.(maxNonces := Limit(job.maxNonces)), r.value))
    && (r.None? ==> forall n: uint64 :: job.(maxNonces := Limit(job.maxNonces)).InRange(n) ==> !job.meets(n))
  }

  /** The scan over a batch of results: the first hit, with the position counted from one. */
  method ScanResults(results: seq<HashResult>, target: Target, start: uint64) returns (r: Option<Found>)
    requires start + |results| <= TWO_TO_THE_64 && |results| < TWO_TO_THE_64
    ensures r.Some? ==> start <= r.value.nonce < start + |results| && r.value.hashes == r.value.nonce - start + 1
    ensures r.Some? ==> Meets(results[r.value.nonce - start].pow256, target)
    ensures forall i :: 0 <= i < (if r.Some? then r.value.nonce - start else |results|) ==>
      !Meets(results[i].pow256, target)
  {
    for i := 0 to |results|
      invariant forall k :: 0 <= k < i ==> !Meets(results[k].pow256, target)
    {
      var hit := LessOrEqualBE(results[i].pow256, target);
      if hit {
        var nonce := Miner.AddUint64(start, i);
        return Some(Found(nonce.value, i + 1));
      }
    }
    return None;
  }

  method HashBatch(c: Crypto, header: seq<byte>, start: uint64, count: uint64, dag: Dag,
                   backend: BatchBackend, scratch: HashScratch)
    returns (r: Result<seq<HashResult>, ()>)
    requires dag.Usable() && scratch.Valid() && Sound(backend)
    requires scratch.Repr() !! Objects(backend) + Footprint(FromDag(dag))
    requires backend.OnCpu? ==> backend.cpu !in Footprint(FromDag(dag))
    requires backend.OnUnified? ==> backend.unified !in Footprint(FromDag(dag))
    modifies Objects(backend), scratch.Repr()
    ensures r.Err? <==> backend == OnRawBuffer(true)
    ensures r.Ok? ==> IsBatch(c, old(SpecFor(backend, dag)), header, start, count, old(TableFor(backend, dag)), r.value)
  {
    hide LatticeHashOf;
    hide IsBatch;
    var results;
    match backend {
      case OnCpu(cpu) =>
        results := cpu.HashBatch(c, header, start, count, dag, scratch);
      case OnUnified(unified) =>
        results := unified.HashBatch(c, header, start, count, dag, scratch);
      case OnRawBuffer(fails) =>
        if fails {
          return Err(());
        }
        var raw := NewRawContiguousBuffer(dag);
        results := HashBatchShared(c, dag.spec, header, start, count, raw);
    }
    return Ok(results);
  }

  /**
   * mineBatch: the least satisfying nonce of the range, or none; an error of the backend also reads as none.
   * Without a limit it tries only the first DEFAULT_BATCH nonces.  `workers` only says which concurrent search the
   * outcome is compared with.
   */
  method MineBatch(c: Crypto, header: seq<byte>, target: Target, start: uint64, maxNonces: uint64, dag: Dag,
                   backend: BatchBackend, scratch: HashScratch, ghost workers: nat)
    returns (r: Option<Found>)
    requires dag.Usable() && scratch.Valid() && Sound(backend)
    requires scratch.Repr() !! Objects(backend) + Footprint(FromDag(dag))
    requires backend.OnCpu? ==> backend.cpu !in Footprint(FromDag(dag))
    requires backend.OnUnified? ==> backend.unified !in Footprint(FromDag(dag))
    modifies Objects(backend), scratch.Repr()
    ensures backend == OnRawBuffer(true) ==> r.None?
    ensures backend != OnRawBuffer(true) ==>
      BatchOutcome(JobOf(c, old(SpecFor(backend, dag)), header, target, start, maxNonces, workers,
                         old(TableFor(backend, dag))),
                   if r.Some? then Some(r.value.nonce) else None)
    ensures r.Some? ==> r.value.hashes == r.value.nonce - start + 1
  {
    hide LatticeHashOf;
    ghost var spec, table := SpecFor(backend, dag), TableFor(backend, dag);
    var count: uint64 := if maxNonces == 0 then DEFAULT_BATCH else maxNonces;
    var results := HashBatch(c, header, start, count, dag, backend, scratch);
    if results.Err? {
      return None;
    }
    BatchCoversRange(c, spec, header, target, start, maxNonces, workers, table, results.value);
    r := ScanResults(results.value, target, start);
  }

  lemma BatchCoversRange(c: Crypto, spec: Spec, header: seq<byte>, target: Target, start: uint64, maxNonces: uint64,
                         workers: nat, table: seq<Bytes64>, results: seq<HashResult>)
    requires IsBatch(c, spec, header, start, Limit(maxNonces), table, results)
    ensures var job := JobOf(c, spec, header, target, start, maxNonces, workers, table).(maxNonces := Limit(maxNonces));
      && start + |results| == job.End()
      && forall n: uint64 :: start <= n < job.End() ==> (job.meets(n) <==> Meets(results[n - start].pow256, target))
  {
    hide LatticeHashOf;
    var job := JobOf(c, spec, header, target, start, maxNonces, workers, table).(maxNonces := Limit(maxNonces));
    forall n: uint64 | start <= n < job.End()
      ensures job.meets(n) <==> Meets(results[n - start].pow256, target)
    {
      assert results[n - start] == LatticeHashOf(c, spec, header, Some(start + (n - start)), table);
    }
  }

  /** Some nonce beyond the default batch satisfies, none within it does. */
  ghost predicate OnlyBeyondBatch(job: Miner.Job) {
    job.maxNonces == 0
    && (exists n: uint64 :: job.start <= n && job.meets(n))
    && forall n: uint64 :: job.start <= n < job.start + DEFAULT_BATCH ==> !job.meets(n)
  }

  /** A finished concurrent search and a batch search agree on whether there is a solution. */
  ghost predicate Agree(job: Miner.Job, schedule: seq<Miner.Actor>, r: Option<uint64>)
    requires job.Valid() && Miner.Schedulable(job, Miner.Initial(job), schedule)
  {
    r.Some? <==> Miner.RunSchedule(job, Miner.Initial(job), schedule).caller.Success?
  }

  /** For one job: they agree unless the caller set no limit and all satisfying nonces lie past the default batch. */
  lemma BatchAgreesOnJob(job: Miner.Job, schedule: seq<Miner.Actor>, r: Option<uint64>)
    requires job.Valid() && Miner.Schedulable(job, Miner.Initial(job), schedule) && BatchOutcome(job, r)
    requires !Miner.RunSchedule(job, Miner.Initial(job), schedule).caller.Waiting?
    ensures Agree(job, schedule, r) <==> !OnlyBeyondBatch(job)
    ensures var caller := Miner.RunSchedule(job, Miner.Initial(job), schedule).caller;
      r.Some? && caller.Success? ==> r.value <= caller.nonce
  {
    hide Miner.RunSchedule;
    hide Miner.Schedulable;
    Miner.MineIsCorrect(job, schedule);
    var batch := job.(maxNonces := Limit(job.maxNonces));
    var caller := Miner.RunSchedule(job, Miner.Initial(job), schedule).caller;
    if r.Some? {
      assert job.InRange(r.value) && job.meets(r.value);
      assert job.maxNonces == 0 ==> r.value < job.start + DEFAULT_BATCH;
    } else {
      assert forall n: uint64 :: batch.InRange(n) ==> !job.meets(n);
      if caller.Success? {
        assert job.InRange(caller.nonce) && job.meets(caller.nonce);
        assert !batch.InRange(caller.nonce);
      }
    }
  }

  /** A finished search and a batch search of this job disagree. */
  ghost predicate CanDisagree(job: Miner.Job)
    requires job.Valid()
  {
    exists schedule, r ::
      && Miner.Schedulable(job, Miner.Initial(job), schedule)
      && !Miner.RunSchedule(job, Miner.Initial(job), schedule).caller.Waiting?
      && BatchOutcome(job, r) && !Agree(job, schedule, r)
  }

  /**
   * Whatever the hashes and the target are, under every schedule the two searches agree on success, exactly when the
   * caller set a limit or the default batch reaches the end of the nonce space.
   */
  lemma BatchAgreesWithSearch(workers: nat, start: uint64, maxNonces: uint64)
    requires 0 < workers < TWO_TO_THE_64
    ensures (forall meets: uint64 -> bool :: !CanDisagree(Miner.Job(workers, start, maxNonces, meets)))
      <==> maxNonces != 0 || start + 100000 >= TWO_TO_THE_64
  {
    hide Miner.RunSchedule;
    hide Miner.Schedulable;
    hide BatchOutcome;
    if maxNonces == 0 && start + DEFAULT_BATCH < TWO_TO_THE_64 {
      JustPastTheBatch(workers, start);
    } else {
      forall meets: uint64 -> bool
        ensures !CanDisagree(Miner.Job(workers, start, maxNonces, meets))
      {
        var job := Miner.Job(workers, start, maxNonces, meets);
        forall schedule, r | Miner.Schedulable(job, Miner.Initial(job), schedule) && BatchOutcome(job, r)
                             && !Miner.RunSchedule(job, Miner.Initial(job), schedule).caller.Waiting?
          ensures Agree(job, schedule, r)
        {
          BatchAgreesOnJob(job, schedule, r);
        }
      }
    }
  }

  /** The one nonce right after the default batch satisfies: the batch search misses it, the concurrent one cannot. */
  lemma JustPastTheBatch(workers: nat, start: uint64)
    requires 0 < workers < TWO_TO_THE_64 && start + DEFAULT_BATCH < TWO_TO_THE_64
    ensures CanDisagree(Miner.Job(workers, start, 0, (n: uint64) => n == start + DEFAULT_BATCH))
  {
    hide Miner.RunSchedule;
    hide Miner.Schedulable;
    hide Miner.Inv;
    var job := Miner.Job(workers, start, 0, (n: uint64) => n == start + DEFAULT_BATCH);
    Miner.InitialInv(job);
    var schedule := Miner.SearchCanFinish(job, Miner.Initial(job));
    assert job.meets(start + DEFAULT_BATCH);
    assert OnlyBeyondBatch(job) && BatchOutcome(job, None);
    BatchAgreesOnJob(job, schedule, None);
  }
}
