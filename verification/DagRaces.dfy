/**
 * Hashing runs outside the validator's lock (pkg/consensus/validator.go): between looking a DAG up and finishing the
 * hash, another goroutine may close it.  One step here is one stretch under the lock, or the end of one hash.
 */
module DagRaces {

  /** DAGs by number; `held` says which DAG each goroutine is hashing on. */
  datatype System = System(next: nat, open: set<nat>, shared: set<nat>, fallback: set<nat>, held: map<nat, nat>)

  const QUIET: System := System(0, {}, {}, {}, map[])

  datatype Step =
    | Obtain(goroutine: nat, dag: nat, fromShared: bool) // cachedDAGForHeader: a hit, or the next new DAG
    | Finish(goroutine: nat)                             // the hash is done
    | Reconfigure                                        // SetMiningBackend
    | Close

  predicate Enabled(s: System, step: Step) {
    match step
    case Obtain(g, d, fromShared) =>
      g !in s.held && (d == s.next || d in if fromShared then s.shared else s.fallback)
    case Finish(g) => g in s.held
    case Reconfigure => true
    case Close => true
  }

  function Do(s: System, step: Step): System
    requires Enabled(s, step)
  {
    match step
    case Obtain(g, d, fromShared) =>
      System(if d == s.next then s.next + 1 else s.next,
             if d == s.next then s.open + {d} else s.open,
             if fromShared then s.shared + {d} else s.shared,
             if fromShared then s.fallback else s.fallback + {d},
             s.held[g := d])
    case Finish(g) => s.(held := s.held - {g})
    case Reconfigure => s.(open := s.open - s.shared, shared := {})
    case Close => s.(open := s.open - s.shared - s.fallback, shared := {}, fallback := {})
  }

  predicate Runnable(s: System, steps: seq<Step>)
    decreases |steps|
  {
    steps == [] || (Enabled(s, steps[0]) && Runnable(Do(s, steps[0]), steps[1..]))
  }

  /** Every hash in flight is on an open DAG. */
  predicate Safe(s: System) { forall g :: g in s.held ==> s.held[g] in s.open }

  /** In every state of the run. */
  predicate SafeThroughout(s: System, steps: seq<Step>)
    requires Runnable(s, steps)
    decreases |steps|
  {
    Safe(s) && (steps == [] || SafeThroughout(Do(s, steps[0]), steps[1..]))
  }

  /** The step closes no DAG that some goroutine is hashing on; a caller can see to it. */
  predicate Polite(s: System, step: Step) {
    match step
    case Reconfigure => forall g :: g in s.held ==> s.held[g] !in s.shared
    case Close => forall g :: g in s.held ==> s.held[g] !in s.shared + s.fallback
    case _ => true
  }

  predicate PoliteThroughout(s: System, steps: seq<Step>)
    requires Runnable(s, steps)
    decreases |steps|
  {
    steps == [] || (Polite(s, steps[0]) && PoliteThroughout(Do(s, steps[0]), steps[1..]))
  }

  /** Cached DAGs are open and no DAG is in both caches. */
  predicate Inv(s: System) {
    && s.shared + s.fallback <= s.open && s.shared !! s.fallback
    && forall d :: d in s.open ==> d < s.next
  }

  lemma StepKeepsInv(s: System, step: Step)
    requires Inv(s) && Enabled(s, step)
    ensures Inv(Do(s, step))
    ensures Safe(s) ==> (Safe(Do(s, step)) <==> Polite(s, step))
  {
    var t := Do(s, step);
    if Safe(s) && Safe(t) && (step.Reconfigure? || step.Close?) {
      forall g | g in s.held
        ensures s.held[g] !in s.open - t.open
      {
        assert g in t.held && t.held[g] in t.open;
      }
    }
  }

  lemma {:induction false} RunFromSafe(s: System, steps: seq<Step>)
    requires Inv(s) && Safe(s) && Runnable(s, steps)
    ensures SafeThroughout(s, steps) <==> PoliteThroughout(s, steps)
    decreases |steps|
  {
    if steps != [] {
      StepKeepsInv(s, steps[0]);
      if Polite(s, steps[0]) {
        RunFromSafe(Do(s, steps[0]), steps[1..]);
      } else {
        assert !Safe(Do(s, steps[0]));
      }
    }
  }

  /**
   * In any interleaving of lookups, hashes and reconfigurations from an idle validator, every hash runs on an open
   * DAG exactly when no reconfiguration or close comes while a goroutine hashes on a DAG it would close.
   */
  lemma HashesAreSafe(steps: seq<Step>)
    requires Runnable(QUIET, steps)
    ensures SafeThroughout(QUIET, steps) <==> PoliteThroughout(QUIET, steps)
  {
    RunFromSafe(QUIET, steps);
  }

  /** A reconfiguration during a hash on a shared DAG closes it under the hash. */
  lemma ReconfiguringTooEarly()
    ensures var steps := [Obtain(0, 0, true), Reconfigure]; Runnable(QUIET, steps) && !SafeThroughout(QUIET, steps)
  {
    var steps := [Obtain(0, 0, true), Reconfigure];
    var s1 := Do(QUIET, steps[0]);
    assert steps[1..] == [Reconfigure] && steps[1..][1..] == [];
    assert Runnable(s1, [Reconfigure]);
    assert Runnable(QUIET, steps);
    assert s1.held[0] == 0 && 0 in s1.shared && !Polite(s1, Reconfigure);
    assert !PoliteThroughout(s1, steps[1..]);
    HashesAreSafe(steps);
  }
}
