/** The concurrent nonce search (colossusx/miner.go): strided workers under an arbitrary scheduler. */
module Miner {
  import opened Bytes

  /** AddUint64: the sum, or nothing when it would not fit 64 bits. */
  function AddUint64(n: uint64, delta: uint64): (r: Option<uint64>)
    ensures r.Some? <==> n + delta < TWO_TO_THE_64
    ensures r.Some? ==> r.value == n + delta
  {
    if TWO_TO_THE_64 - 1 - n < delta then None else Some(n + delta)
  }

  /** One search: `meets(n)` says that the hash at nonce n satisfies the target; maxNonces 0 means no limit. */
  datatype Job = Job(workers: nat, start: uint64, maxNonces: uint64, meets: uint64 -> bool)
  {
    predicate Valid() { 0 < workers < TWO_TO_THE_64 }

    /** The first nonce past the search range. */
    function End(): int {
      if maxNonces == 0 || start + maxNonces > TWO_TO_THE_64 then TWO_TO_THE_64 else start + maxNonces
    }

    predicate InRange(n: uint64) { start <= n < End() }
  }

  /** Where a worker stands: named after the step it takes next. */
  datatype Worker =
    | Starting
    | Checking(nonce: uint64)   // the loop head: cancelled or found, then the nonce limit
    | Hashing(nonce: uint64)
    | Hit(nonce: uint64)        // about to compare-and-swap the found flag
    | Sending(nonce: uint64)    // won the flag
    | Cancelling
    | Stepping(nonce: uint64)   // about to add the stride
    | Done

  datatype Caller = Waiting | Success(nonce: uint64) | Failure

  /** Shared state of one search; `hashed` records every backend call in order. */
  datatype State = State(
    workers: seq<Worker>,
    found: bool,
    cancelled: bool,
    channel: Option<uint64>,
    closed: bool,
    caller: Caller,
    sent: nat,
    hashed: seq<uint64>)

  function Initial(job: Job): State {
    State(seq(job.workers, i => Starting), false, false, None, false, Waiting, 0, [])
  }

  /** One step of worker w; the compare-and-swap and the counters are atomic. */
  function WorkerStep(job: Job, s: State, w: nat): State
    requires job.Valid() && w < |s.workers| <= job.workers
  {
    match s.workers[w]
    case Starting =>
      (match AddUint64(job.start, w)
       case None => s.(workers := s.workers[w := Done])
       case Some(n) => s.(workers := s.workers[w := Checking(n)]))
    case Checking(n) =>
      if s.cancelled || s.found then s.(workers := s.workers[w := Done])
      else if job.maxNonces > 0 && (n - job.start) % TWO_TO_THE_64 >= job.maxNonces
      then s.(workers := s.workers[w := Done])
      else s.(workers := s.workers[w := Hashing(n)])
    case Hashing(n) =>
      s.(hashed := s.hashed + [n], workers := s.workers[w := if job.meets(n) then Hit(n) else Stepping(n)])
    case Hit(n) =>
      if s.found then s.(workers := s.workers[w := Done])
      else s.(found := true, workers := s.workers[w := Sending(n)])
    case Sending(n) => s.(channel := Some(n), sent := s.sent + 1, workers := s.workers[w := Cancelling])
    case Cancelling => s.(cancelled := true, workers := s.workers[w := Done])
    case Stepping(n) =>
      (match AddUint64(n, job.workers)
       case None => s.(workers := s.workers[w := Done])
       case Some(m) => s.(workers := s.workers[w := Checking(m)]))
    case Done => s
  }

  predicate AllDone(s: State) { forall w :: 0 <= w < |s.workers| ==> s.workers[w].Done? }

  datatype Actor = WorkerActor(w: nat) | Closer | Receiver

  /**
   * Who may act: a running worker (a sender only while the one-slot channel is free), the closer once all workers are
   * done, the caller once there is something to receive.
   */
  predicate Enabled(s: State, a: Actor) {
    match a
    case WorkerActor(w) => w < |s.workers| && !s.workers[w].Done? && (s.workers[w].Sending? ==> s.channel.None?)
    case Closer => AllDone(s) && !s.closed
    case Receiver => s.caller.Waiting? && (s.channel.Some? || s.closed)
  }

  function Act(job: Job, s: State, a: Actor): State
    requires job.Valid() && |s.workers| == job.workers && Enabled(s, a)
  {
    match a
    case WorkerActor(w) => WorkerStep(job, s, w)
    case Closer => s.(closed := true)
    case Receiver =>
      if s.channel.Some? then s.(caller := Success(s.channel.value), channel := None, cancelled := true)
      else s.(caller := Failure)
  }

  // ----- Residue classes: worker w owns the nonces start + w, start + w + workers, ...

  predicate Owns(job: Job, w: nat, n: uint64)
    requires job.Valid()
  {
    n >= job.start && (n - job.start) % job.workers == w
  }

  lemma ModuloStep(x: nat, d: nat)
    requires d > 0
    ensures (x + d) % d == x % d
    ensures x < d ==> x % d == x
  {
    DivisionIsUnique(x + d, d, x / d + 1, x % d);
    if x < d {
      DivisionIsUnique(x, d, 0, x);
    }
  }

  /** Numbers less than d apart have different remainders. */
  lemma ModuloGap(x: nat, y: nat, d: nat)
    requires d > 0 && x < y && y % d == x % d
    ensures y >= x + d
  {
    var p, q := x / d, y / d;
    assert x == d * p + x % d && y == d * q + y % d;
    if q <= p {
      if q < p {
        Scale(d, q, p);
      }
    } else {
      Scale(d, p, q);
    }
  }

  /** The first nonce a worker owns, and the next one after any it owns. */
  lemma OwnedNonces(job: Job, w: nat)
    requires job.Valid() && w < job.workers
    ensures forall n: uint64 :: Owns(job, w, n) ==> n >= job.start + w
    ensures job.start + w < TWO_TO_THE_64 ==> Owns(job, w, job.start + w)
  {
    forall n: uint64 | Owns(job, w, n)
      ensures n >= job.start + w
    {
      if n - job.start < job.workers {
        ModuloStep(n - job.start, job.workers);
      }
    }
    ModuloStep(w, job.workers);
  }

  lemma NextOwned(job: Job, w: nat, n: uint64)
    requires job.Valid() && Owns(job, w, n)
    ensures n + job.workers < TWO_TO_THE_64 ==> Owns(job, w, n + job.workers)
    ensures forall m: uint64 :: Owns(job, w, m) && m > n ==> m >= n + job.workers
  {
    ModuloStep(n - job.start, job.workers);
    forall m: uint64 | Owns(job, w, m) && m > n
      ensures m >= n + job.workers
    {
      ModuloGap(n - job.start, m - job.start, job.workers);
    }
  }

  // ----- The invariant

  /** Worker w has hashed exactly its own nonces below `upTo` that lie in the range. */
  ghost predicate HashedBelow(job: Job, hashed: seq<uint64>, w: nat, upTo: int)
    requires job.Valid()
  {
    forall n: uint64 {:trigger n in hashed} :: Owns(job, w, n) ==> (n in hashed <==> n < upTo && job.InRange(n))
  }

  ghost predicate WorkerOk(job: Job, hashed: seq<uint64>, found: bool, w: nat, worker: Worker)
    requires job.Valid()
  {
    match worker
    case Starting => HashedBelow(job, hashed, w, 0)
    case Checking(n) => Owns(job, w, n) && HashedBelow(job, hashed, w, n)
    case Hashing(n) => Owns(job, w, n) && job.InRange(n) && HashedBelow(job, hashed, w, n)
    case Hit(n) => Owns(job, w, n) && job.InRange(n) && job.meets(n) && HashedBelow(job, hashed, w, n + 1)
    case Sending(n) => job.InRange(n) && job.meets(n) && found && n in hashed
    case Cancelling => found
    case Stepping(n) => Owns(job, w, n) && job.InRange(n) && HashedBelow(job, hashed, w, n + 1)
    case Done => found || HashedBelow(job, hashed, w, TWO_TO_THE_64)
  }

  /** The winner's message: not yet sent, in the channel, or received. */
  ghost predicate MessageOk(job: Job, s: State)
    requires |s.workers| == job.workers
  {
    && (forall v, w ::
      0 <= v < |s.workers| && 0 <= w < |s.workers| && s.workers[v].Sending? && s.workers[w].Sending? ==> v == w)
    && (!s.found ==> s.sent == 0 && s.channel.None? && !s.caller.Success? && NoSender(s))
    && (s.found && s.sent == 0 ==>
      s.channel.None? && s.caller.Waiting? && exists w :: 0 <= w < |s.workers| && s.workers[w].Sending?)
    && (s.sent > 0 ==> s.found && s.sent == 1 && NoSender(s))
    && (s.sent > 0 && s.channel.Some? ==> s.caller.Waiting? && Winner(job, s, s.channel.value))
    && (s.sent > 0 && s.channel.None? ==> s.caller.Success? && Winner(job, s, s.caller.nonce))
    && (s.cancelled ==> s.found)
    && (s.closed ==> AllDone(s))
    && (s.caller.Failure? ==> s.closed && !s.found)
  }

  predicate NoSender(s: State) { forall w :: 0 <= w < |s.workers| ==> !s.workers[w].Sending? }

  predicate Winner(job: Job, s: State, n: uint64) { job.InRange(n) && job.meets(n) && n in s.hashed }

  /** A satisfying nonce that was hashed is either announced or about to be. */
  ghost predicate HitsOk(job: Job, s: State) {
    forall n {:trigger n in s.hashed} :: n in s.hashed && job.meets(n) ==>
      s.found || exists w :: 0 <= w < |s.workers| && s.workers[w] == Hit(n)
  }

  ghost predicate Distinct(hashed: seq<uint64>) {
    forall i, j :: 0 <= i < j < |hashed| ==> hashed[i] != hashed[j]
  }

  ghost predicate Inv(job: Job, s: State)
    requires job.Valid()
  {
    && |s.workers| == job.workers
    && (forall w :: 0 <= w < |s.workers| ==> WorkerOk(job, s.hashed, s.found, w, s.workers[w]))
    && (forall n {:trigger n in s.hashed} :: n in s.hashed ==> job.InRange(n))
    && Distinct(s.hashed)
    && HitsOk(job, s)
    && MessageOk(job, s)
  }

  lemma InitialInv(job: Job)
    requires job.Valid()
    ensures Inv(job, Initial(job))
  {
  }

  // ----- Every step keeps the invariant

  lemma StartingStep(job: Job, s: State, w: nat)
    requires job.Valid() && Inv(job, s) && w < |s.workers| && s.workers[w].Starting?
    ensures Inv(job, WorkerStep(job, s, w))
  {
    OwnedNonces(job, w);
    assert WorkerOk(job, s.hashed, s.found, w, s.workers[w]);
    QuietUpdate(job, s, w, WorkerStep(job, s, w).workers[w]);
  }

  lemma CheckingStep(job: Job, s: State, w: nat)
    requires job.Valid() && Inv(job, s) && w < |s.workers| && s.workers[w].Checking?
    ensures Inv(job, WorkerStep(job, s, w))
  {
    var n := s.workers[w].nonce;
    assert WorkerOk(job, s.hashed, s.found, w, s.workers[w]);
    assert (n - job.start) % TWO_TO_THE_64 == n - job.start;
    QuietUpdate(job, s, w, WorkerStep(job, s, w).workers[w]);
  }

  lemma SteppingStep(job: Job, s: State, w: nat)
    requires job.Valid() && Inv(job, s) && w < |s.workers| && s.workers[w].Stepping?
    ensures Inv(job, WorkerStep(job, s, w))
  {
    assert WorkerOk(job, s.hashed, s.found, w, s.workers[w]);
    NextOwned(job, w, s.workers[w].nonce);
    QuietUpdate(job, s, w, WorkerStep(job, s, w).workers[w]);
  }

  /** Hashing appends a fresh nonce and disturbs no other worker's record. */
  lemma HashingStep(job: Job, s: State, w: nat)
    requires job.Valid() && Inv(job, s) && w < |s.workers| && s.workers[w].Hashing?
    ensures Inv(job, WorkerStep(job, s, w))
  {
    var n := s.workers[w].nonce;
    var t := WorkerStep(job, s, w);
    assert WorkerOk(job, s.hashed, s.found, w, s.workers[w]);
    assert n !in s.hashed;
    assert forall m :: m in t.hashed <==> m == n || m in s.hashed;
    forall v | 0 <= v < |t.workers|
      ensures WorkerOk(job, t.hashed, t.found, v, t.workers[v])
    {
      assert WorkerOk(job, s.hashed, s.found, v, s.workers[v]);
    }
    forall m | m in t.hashed && job.meets(m)
      ensures t.found || exists v :: 0 <= v < |t.workers| && t.workers[v] == Hit(m)
    {
      if m == n {
        assert t.workers[w] == Hit(m);
      } else if !s.found {
        var v :| 0 <= v < |s.workers| && s.workers[v] == Hit(m);
        assert t.workers[v] == Hit(m);
      }
    }
    MessageUntouched(job, s, t, w);
  }

  /** A step that leaves flag, channel and caller alone, and involves no sender, keeps the message invariant. */
  lemma MessageUntouched(job: Job, s: State, t: State, w: nat)
    requires |s.workers| == job.workers && MessageOk(job, s) && w < |s.workers|
    requires t == s.(workers := t.workers, hashed := t.hashed) && |t.workers| == |s.workers|
    requires forall v :: 0 <= v < |s.workers| && v != w ==> t.workers[v] == s.workers[v]
    requires !s.workers[w].Sending? && !s.workers[w].Done? && !t.workers[w].Sending?
    requires forall m :: m in s.hashed ==> m in t.hashed
    ensures MessageOk(job, t)
  {
    if s.found && s.sent == 0 {
      var v :| 0 <= v < |s.workers| && s.workers[v].Sending?;
      assert t.workers[v].Sending?;
    }
  }

  /** Moving one worker on without hashing, winning or announcing anything. */
  lemma QuietUpdate(job: Job, s: State, w: nat, worker: Worker)
    requires job.Valid() && Inv(job, s) && w < |s.workers|
    requires WorkerOk(job, s.hashed, s.found, w, worker) && !worker.Sending?
    requires !s.workers[w].Sending? && !s.workers[w].Done? && (s.workers[w].Hit? ==> s.found)
    ensures Inv(job, s.(workers := s.workers[w := worker]))
  {
    var t := s.(workers := s.workers[w := worker]);
    forall m | m in t.hashed && job.meets(m)
      ensures t.found || exists v :: 0 <= v < |t.workers| && t.workers[v] == Hit(m)
    {
      if !s.found {
        var v :| 0 <= v < |s.workers| && s.workers[v] == Hit(m);
        assert t.workers[v] == Hit(m);
      }
    }
    MessageUntouched(job, s, t, w);
  }

  /** Winning the flag, sending the one message, cancelling. */
  lemma WinnerStep(job: Job, s: State, w: nat)
    requires job.Valid() && Inv(job, s) && w < |s.workers| && Enabled(s, WorkerActor(w))
    requires (s.workers[w].Hit? && !s.found) || s.workers[w].Sending? || s.workers[w].Cancelling?
    ensures Inv(job, WorkerStep(job, s, w))
  {
    var t := WorkerStep(job, s, w);
    assert WorkerOk(job, s.hashed, s.found, w, s.workers[w]);
    forall v | 0 <= v < |t.workers|
      ensures WorkerOk(job, t.hashed, t.found, v, t.workers[v])
    {
      assert WorkerOk(job, s.hashed, s.found, v, s.workers[v]);
    }
    if s.workers[w].Hit? {
      assert t.workers[w].Sending?;
    } else if s.workers[w].Cancelling? {
      MessageUntouched(job, s, t.(cancelled := s.cancelled), w);
    }
  }

  lemma ActKeepsInv(job: Job, s: State, a: Actor)
    requires job.Valid() && Inv(job, s) && Enabled(s, a)
    ensures Inv(job, Act(job, s, a))
  {
    match a
    case WorkerActor(w) =>
      if s.workers[w].Hashing? {
        HashingStep(job, s, w);
      } else if (s.workers[w].Hit? && !s.found) || s.workers[w].Sending? || s.workers[w].Cancelling? {
        WinnerStep(job, s, w);
      } else {
        match s.workers[w] {
          case Starting => StartingStep(job, s, w);
          case Checking(_) => CheckingStep(job, s, w);
          case Stepping(_) => SteppingStep(job, s, w);
          case _ => QuietUpdate(job, s, w, Done);
        }
      }
    case _ =>
      var t := Act(job, s, a);
      forall v | 0 <= v < |t.workers|
        ensures WorkerOk(job, t.hashed, t.found, v, t.workers[v])
      {
        assert WorkerOk(job, s.hashed, s.found, v, s.workers[v]);
      }
      assert HitsOk(job, t);
  }

  // ----- Whole schedules

  /** A schedule names, step by step, who acts; every actor it names must be able to. */
  predicate Schedulable(job: Job, s: State, schedule: seq<Actor>)
    requires job.Valid() && |s.workers| == job.workers
    decreases |schedule|
  {
    schedule == [] || (Enabled(s, schedule[0]) && Schedulable(job, Act(job, s, schedule[0]), schedule[1..]))
  }

  function RunSchedule(job: Job, s: State, schedule: seq<Actor>): State
    requires job.Valid() && |s.workers| == job.workers && Schedulable(job, s, schedule)
    decreases |schedule|
  {
    if schedule == [] then s else RunSchedule(job, Act(job, s, schedule[0]), schedule[1..])
  }

  lemma {:induction false} ScheduleKeepsInv(job: Job, s: State, schedule: seq<Actor>)
    requires job.Valid() && Inv(job, s) && Schedulable(job, s, schedule)
    ensures Inv(job, RunSchedule(job, s, schedule))
    decreases |schedule|
  {
    if schedule != [] {
      ActKeepsInv(job, s, schedule[0]);
      ScheduleKeepsInv(job, Act(job, s, schedule[0]), schedule[1..]);
    }
  }

  /** If every worker is done and nobody won, every nonce of the range was hashed and none satisfied. */
  lemma ExhaustedMeansNone(job: Job, s: State)
    requires job.Valid() && Inv(job, s) && AllDone(s) && !s.found
    ensures forall n: uint64 :: job.InRange(n) ==> n in s.hashed && !job.meets(n)
  {
    forall n: uint64 | job.InRange(n)
      ensures n in s.hashed && !job.meets(n)
    {
      var w := (n - job.start) % job.workers;
      assert WorkerOk(job, s.hashed, s.found, w, s.workers[w]);
    }
  }

  /**
   * Under every schedule: once Mine has returned, it reports success exactly when some nonce of the range
   * satisfies the target, and then returns such a nonce, which it hashed.  At any time, no nonce was hashed
   * twice or out of range, and at most one message was sent.
   */
  lemma MineIsCorrect(job: Job, schedule: seq<Actor>)
    requires job.Valid() && Schedulable(job, Initial(job), schedule)
    ensures var s := RunSchedule(job, Initial(job), schedule);
            && Distinct(s.hashed) && (forall n :: n in s.hashed ==> job.InRange(n)) && s.sent <= 1
            && (!s.caller.Waiting? ==> (s.caller.Success? <==> exists n: uint64 :: job.InRange(n) && job.meets(n)))
            && (s.caller.Success? ==>
              job.InRange(s.caller.nonce) && job.meets(s.caller.nonce) && s.caller.nonce in s.hashed)
  {
    InitialInv(job);
    ScheduleKeepsInv(job, Initial(job), schedule);
    var s := RunSchedule(job, Initial(job), schedule);
    if s.caller.Failure? {
      ExhaustedMeansNone(job, s);
    }
  }

  // ----- Termination

  function WorkerRank(worker: Worker): nat {
    match worker
    case Starting => 8 * TWO_TO_THE_64 + 8
    case Checking(n) => 8 * (TWO_TO_THE_64 - n) + 4
    case Hashing(n) => 8 * (TWO_TO_THE_64 - n) + 3
    case Hit(n) => 8 * (TWO_TO_THE_64 - n) + 2
    case Stepping(n) => 8 * (TWO_TO_THE_64 - n)
    case Sending(_) => 2
    case Cancelling => 1
    case Done => 0
  }

  function TotalRank(workers: seq<Worker>): nat {
    if workers == [] then 0 else WorkerRank(workers[0]) + TotalRank(workers[1..])
  }

  function Rank(s: State): nat {
    TotalRank(s.workers) + (if s.closed then 0 else 1) + (if s.caller.Waiting? then 1 else 0)
  }

  lemma {:induction false} RankOfUpdate(workers: seq<Worker>, w: nat, worker: Worker)
    requires w < |workers|
    ensures TotalRank(workers[w := worker]) == TotalRank(workers) - WorkerRank(workers[w]) + WorkerRank(worker)
  {
    var updated := workers[w := worker];
    if w == 0 {
      assert updated[1..] == workers[1..];
    } else {
      assert updated[1..] == workers[1..][w - 1 := worker];
      RankOfUpdate(workers[1..], w - 1, worker);
    }
  }

  lemma StepLowersRank(job: Job, s: State, w: nat)
    requires job.Valid() && w < |s.workers| == job.workers && !s.workers[w].Done?
    ensures var t := WorkerStep(job, s, w);
            && |t.workers| == |s.workers| && t.workers == s.workers[w := t.workers[w]]
            && WorkerRank(t.workers[w]) < WorkerRank(s.workers[w])
            && t.closed == s.closed && t.caller == s.caller
  {
    match s.workers[w]
    case Starting =>
    case Checking(n) =>
    case Stepping(n) =>
    case _ =>
  }

  lemma ActDecreasesRank(job: Job, s: State, a: Actor)
    requires job.Valid() && |s.workers| == job.workers && Enabled(s, a)
    ensures Rank(Act(job, s, a)) < Rank(s)
  {
    match a
    case WorkerActor(w) =>
      StepLowersRank(job, s, w);
      RankOfUpdate(s.workers, w, WorkerStep(job, s, w).workers[w]);
    case _ =>
  }

  /** No schedule runs longer than the initial rank: every worker, and the search, terminates. */
  lemma {:induction false} SchedulesAreFinite(job: Job, s: State, schedule: seq<Actor>)
    requires job.Valid() && |s.workers| == job.workers && Schedulable(job, s, schedule)
    ensures |schedule| <= Rank(s)
    decreases |schedule|
  {
    if schedule != [] {
      ActDecreasesRank(job, s, schedule[0]);
      SchedulesAreFinite(job, Act(job, s, schedule[0]), schedule[1..]);
    }
  }

  /** Nothing deadlocks: while the caller waits or a worker is unfinished, somebody can act. */
  lemma SomebodyCanAct(job: Job, s: State) returns (a: Actor)
    requires job.Valid() && Inv(job, s)
    requires s.caller.Waiting? || !AllDone(s)
    ensures Enabled(s, a)
  {
    if !AllDone(s) {
      var w :| 0 <= w < |s.workers| && !s.workers[w].Done?;
      assert WorkerOk(job, s.hashed, s.found, w, s.workers[w]);
      a := WorkerActor(w);
    } else if !s.closed {
      a := Closer;
    } else {
      a := Receiver;
    }
  }

  /** Any schedule so far can be carried on until every worker has finished and the caller has its answer. */
  lemma {:induction false} SearchCanFinish(job: Job, s: State) returns (rest: seq<Actor>)
    requires job.Valid() && Inv(job, s)
    ensures Schedulable(job, s, rest)
    ensures AllDone(RunSchedule(job, s, rest)) && !RunSchedule(job, s, rest).caller.Waiting?
    decreases Rank(s)
  {
    if s.caller.Waiting? || !AllDone(s) {
      var a := SomebodyCanAct(job, s);
      ActKeepsInv(job, s, a);
      ActDecreasesRank(job, s, a);
      var later := SearchCanFinish(job, Act(job, s, a));
      rest := [a] + later;
      assert rest[1..] == later;
    } else {
      rest := [];
    }
  }
}
