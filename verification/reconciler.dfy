/**
  The outcome of one reconciliation pass and the process-level supervisor
  that counts consecutive failed passes and aborts after too many.
 */
module Reconciler {
  import opened Wrappers
  import opened Discovery
  import opened Expiry
  import opened Sweep

  /** Consecutive failed passes tolerated before the process panics. */
  const MaximumFailedExecutionBeforePanic: nat := 10

  /** Why a pass failed: discovery returned an error (passed on unchanged), or the pass deadline fired first. */
  datatype PassError = DiscoveryFailed(message: string) | TimedOut

  /**
    The result of a pass as a function of discovery, the server's answers to
    list requests, the fuel and the race alone: the errors of individual
    delete requests never matter.
   */
  function Outcome(discovery: Result<seq<ApiResourceList>, string>, list: (Gvr, string, nat) -> Reply,
                   fuel: nat, sweepFirst: bool): Option<PassError>
  {
    match discovery
    case Failure(message) => Some(DiscoveryFailed(message))
    case Success(snapshot) =>
      if SweepFrom(Gvrs(Targets(snapshot)), list, 0, fuel).finished && sweepFirst then None
      else Some(TimedOut)
  }

  /**
    One pass. Discovery is an input: the snapshot, or the error the discovery
    call returned. The sweep races the deadline timer; `sweepFirst` says which
    of the two the process saw finish first, and a sweep that has not
    finished (it ran out of fuel) can never win. Per-item delete failures
    play no part in the result.
   */
  method Reconcile(discovery: Result<seq<ApiResourceList>, string>, cluster: Cluster, env: Env,
                   fuel: nat, sweepFirst: bool)
    returns (error: Option<PassError>, trace: seq<Action>, finished: bool)
    ensures discovery.Failure? ==> error == Some(DiscoveryFailed(discovery.error)) && trace == []
    ensures error.None? <==> discovery.Success? && finished && sweepFirst
    ensures discovery.Success? && !(finished && sweepFirst) ==> error == Some(TimedOut)
    ensures Answered(trace, cluster)
    ensures discovery.Success? ==> Addresses(trace, Gvrs(Targets(discovery.value)))
    ensures discovery.Success? ==> finished == SweepFrom(Gvrs(Targets(discovery.value)), cluster.list, 0, fuel).finished
    ensures discovery.Success? ==> trace == SweepTrace(Gvrs(Targets(discovery.value)), cluster.list, 0, fuel, env, cluster)
    ensures error == Outcome(discovery, cluster.list, fuel, sweepFirst)
  {
    match discovery {
      case Failure(message) =>
        return Some(DiscoveryFailed(message)), [], false;
      case Success(snapshot) =>
        var swept, visited, requests;
        swept, trace, visited, requests, finished := DoReconcile(snapshot, cluster, env, fuel);
        if finished && sweepFirst {
          error := None;
        } else {
          error := Some(TimedOut);
        }
    }
  }

  // ---------------------------------------------------------------------------
  // The supervisor loop

  /** The supervisor between passes: alive with a count of consecutive failures, or panicked. */
  datatype Supervisor = Supervising(failures: nat) | Panicked(failures: nat)

  /**
    Account for one pass: a failure increments the counter and panics once
    the counter exceeds the maximum; a success resets the counter to zero.
   */
  function Step(failures: nat, passFailed: bool): (s: Supervisor)
    ensures passFailed ==> s.failures == failures + 1
    ensures passFailed ==> (s.Panicked? <==> failures + 1 > MaximumFailedExecutionBeforePanic)
    ensures !passFailed ==> s == Supervising(0)
  {
    if passFailed then
      if failures + 1 > MaximumFailedExecutionBeforePanic then Panicked(failures + 1)
      else Supervising(failures + 1)
    else
      Supervising(0)
  }

  /** The supervisor after the passes whose failures are `failed`, starting from a zero counter. */
  function Run(failed: seq<bool>): Supervisor
  {
    if |failed| == 0 then Supervising(0)
    else
      match Run(failed[..|failed| - 1])
      case Panicked(n) => Panicked(n)
      case Supervising(n) => Step(n, failed[|failed| - 1])
  }

  /** The number of failed passes at the end of `failed` with no success after them. */
  function TrailingFailures(failed: seq<bool>): nat
  {
    if |failed| == 0 then 0
    else if failed[|failed| - 1] then TrailingFailures(failed[..|failed| - 1]) + 1
    else 0
  }

  /** The `n` passes starting at index `i` all failed. */
  predicate FailureRunAt(failed: seq<bool>, i: int, n: nat)
  {
    0 <= i && i + n <= |failed| && forall j :: i <= j < i + n ==> failed[j]
  }

  /** Somewhere in `failed` there are `n` failed passes in a row. */
  ghost predicate HasFailureRun(failed: seq<bool>, n: nat)
  {
    exists i :: FailureRunAt(failed, i, n)
  }

  lemma {:induction false} TrailingFailuresFailed(failed: seq<bool>)
    ensures TrailingFailures(failed) <= |failed|
    ensures forall j :: |failed| - TrailingFailures(failed) <= j < |failed| ==> failed[j]
    decreases |failed|
  {
    if |failed| > 0 {
      var prefix := failed[..|failed| - 1];
      TrailingFailuresFailed(prefix);
    }
  }

  lemma {:induction false} FailedSuffixCounted(failed: seq<bool>, i: int)
    requires i <= |failed| && FailureRunAt(failed, i, |failed| - i)
    ensures TrailingFailures(failed) >= |failed| - i
    decreases |failed|
  {
    if i < |failed| {
      var prefix := failed[..|failed| - 1];
      assert failed[|failed| - 1];
      assert FailureRunAt(prefix, i, |prefix| - i);
      FailedSuffixCounted(prefix, i);
    }
  }

  /** A run of failures either lies before the last pass or is part of the trailing failures. */
  lemma RunEndsOrEarlier(failed: seq<bool>, i: int, n: nat)
    requires |failed| > 0 && FailureRunAt(failed, i, n)
    ensures FailureRunAt(failed[..|failed| - 1], i, n) || TrailingFailures(failed) >= n
  {
    if i + n < |failed| {
      assert FailureRunAt(failed[..|failed| - 1], i, n);
    } else {
      FailedSuffixCounted(failed, i);
    }
  }

  /**
    What the supervisor state means: while alive, the counter is the number
    of trailing consecutive failures and no run of more than the maximum has
    occurred; once panicked, such a run has occurred.
   */
  lemma {:induction false} RunInvariant(failed: seq<bool>)
    ensures Run(failed).Supervising? ==>
              && Run(failed).failures == TrailingFailures(failed)
              && Run(failed).failures <= MaximumFailedExecutionBeforePanic
              && !HasFailureRun(failed, MaximumFailedExecutionBeforePanic + 1)
    ensures Run(failed).Panicked? ==> HasFailureRun(failed, MaximumFailedExecutionBeforePanic + 1)
    decreases |failed|
  {
    if |failed| > 0 {
      var m := MaximumFailedExecutionBeforePanic + 1;
      var prefix := failed[..|failed| - 1];
      var last := failed[|failed| - 1];
      RunInvariant(prefix);
      assert forall j :: 0 <= j < |prefix| ==> failed[j] == prefix[j];
      if HasFailureRun(prefix, m) {
        var i :| FailureRunAt(prefix, i, m);
        assert FailureRunAt(failed, i, m);
      }
      if Run(prefix).Supervising? {
        if HasFailureRun(failed, m) {
          var i :| FailureRunAt(failed, i, m);
          RunEndsOrEarlier(failed, i, m);
        }
        if last && Run(prefix).failures + 1 > MaximumFailedExecutionBeforePanic {
          TrailingFailuresFailed(failed);
          assert FailureRunAt(failed, |failed| - m, m);
        }
      }
    }
  }

  /** The process panics exactly when some run of more than the maximum of consecutive passes failed. */
  lemma PanicsIffLongFailureRun(failed: seq<bool>)
    ensures Run(failed).Panicked? <==> HasFailureRun(failed, MaximumFailedExecutionBeforePanic + 1)
  {
    RunInvariant(failed);
  }

  /** Starting from zero, ten failed passes are survived and the eleventh panics. */
  lemma {:induction false} PanicsOnEleventhFailure(n: nat)
    ensures Run(seq(n, _ => true)) ==
              if n <= MaximumFailedExecutionBeforePanic then Supervising(n)
              else Panicked(MaximumFailedExecutionBeforePanic + 1)
  {
    if n > 0 {
      PanicsOnEleventhFailure(n - 1);
      assert seq(n, _ => true)[..n - 1] == seq(n - 1, _ => true);
    }
  }

  /** A successful pass leaves a living supervisor with a zero counter. */
  lemma SuccessResets(failed: seq<bool>)
    requires Run(failed).Supervising?
    ensures Run(failed + [false]) == Supervising(0)
  {
    assert (failed + [false])[..|failed|] == failed;
  }
}
