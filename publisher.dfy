/**
  The Hive registration publisher: it owns the policy executor, and a
  closer that holds the Hive register handle. publishData submits one
  policy task per unique path and drains their results in completion
  order, registering each result's specs; close shuts the executor down
  and then, in a finally block, closes the closer.
 */
module Publisher {
  import opened Hive
  import opened Paths
  import opened Registration
  import opened RegistrationLemmas

  /** The two steps of close, in the order they are attempted. */
  datatype LifecycleStep = ExecutorShutdownAttempted | CloserCloseAttempted

  /** The exception close propagates. */
  datatype CloseError = ShutdownFailed | CloserFailed

  class HiveRegistrationPublisher {
    const hiveRegister: HiveRegister
    /** The policy executor still accepts submissions. */
    var executorRunning: bool
    /** The closer still holds the register (Closer pops what it closes). */
    var closerHoldsRegister: bool
    /** The lifecycle steps attempted so far. */
    var trace: seq<LifecycleStep>

    /** The closer holds the register exactly while the register is open. */
    ghost predicate Valid()
      reads this, hiveRegister
    {
      closerHoldsRegister <==> !hiveRegister.closed
    }

    /** The register handle is obtained and handed to the closer; the
        executor is created running. The register refuses `rejects`. */
    constructor (rejects: set<HiveSpec>)
      ensures Valid()
      ensures fresh(hiveRegister) && hiveRegister.rejects == rejects && hiveRegister.log == []
      ensures executorRunning && closerHoldsRegister && trace == []
    {
      hiveRegister := new HiveRegister(rejects);
      executorRunning := true;
      closerHoldsRegister := true;
      trace := [];
    }

    /**
      publishData: `completion` is the order in which the submitted policy
      tasks complete, each with its outcome, and `interruptAt` names the
      take() whose wait is interrupted, if any. The register receives the
      specs the reference semantics `Publish` says, and the call ends as it
      says.
     */
    method PublishData(states: seq<WorkUnitState>, completion: seq<Completed>, interruptAt: Option<nat>)
      returns (status: Status)
      requires IsOrderingOf(PathsOf(completion), UniquePaths(states))
      modifies hiveRegister`log
      ensures hiveRegister.log
                == old(hiveRegister.log)
                   + Publish(states, executorRunning, completion, interruptAt, hiveRegister.rejects).calls
      ensures status == Publish(states, executorRunning, completion, interruptAt, hiveRegister.rejects).status
    {
      var paths := GetUniquePathsToRegister(states);
      if |paths| > 0 && !executorRunning {
        return Failed(SubmissionRejected);
      }
      var tasks := SubmitAll(paths);
      // The completion service hands back exactly the submitted tasks.
      OrderingsArePermutations(PathsOf(completion), tasks, paths);
      status := DrainAll(completion, interruptAt);
    }

    /** The counted drain loop: one take() per submitted task, stopping at
        the first take that raises. */
    method DrainAll(completion: seq<Completed>, interruptAt: Option<nat>) returns (status: Status)
      modifies hiveRegister`log
      ensures hiveRegister.log == old(hiveRegister.log) + Drain(completion, interruptAt, hiveRegister.rejects).calls
      ensures status == Drain(completion, interruptAt, hiveRegister.rejects).status
    {
      ghost var log0, rejects := hiveRegister.log, hiveRegister.rejects;
      var i := 0;
      while i < |completion|
        invariant 0 <= i <= |completion|
        invariant forall m :: 0 <= m < i ==> Clean(completion, interruptAt, rejects, m)
        invariant hiveRegister.log == log0 + SpecsBetween(completion, 0, i)
      {
        var error := TakeAndRegister(completion, interruptAt, i);
        if error.Some? {
          DrainFirstFault(completion, interruptAt, rejects, i);
          return Failed(error.value);
        }
        TakeAtFacts(completion, interruptAt, rejects, i);
        SpecsBetweenSnoc(completion, 0, i);
        i := i + 1;
      }
      DrainPublished(completion, interruptAt, rejects);
      return Published;
    }

    /** The body of the drain loop: take the i-th completed task and pass
        each of its specs to the register; the error is the one raised, if
        any. */
    method TakeAndRegister(completion: seq<Completed>, interruptAt: Option<nat>, i: nat)
      returns (error: Option<PublishError>)
      requires i < |completion|
      modifies hiveRegister`log
      ensures hiveRegister.log
                == old(hiveRegister.log) + TakeAt(completion, interruptAt, hiveRegister.rejects, i).calls
      ensures error == TakeAt(completion, interruptAt, hiveRegister.rejects, i).error
    {
      if interruptAt == Some(i) {
        return Some(Interrupted);
      }
      match completion[i].outcome {
        case GenerationFailed(cause) =>
          return Some(ExecutionFailed(cause));
        case Generated(specs) =>
          var failed := RegisterEach(specs);
          error := if failed.Some? then Some(RegisterFailed(failed.value)) else None;
      }
    }

    /** Registers specs one by one, stopping at the first that the register
        refuses; `failed` is that spec. */
    method RegisterEach(specs: seq<HiveSpec>) returns (failed: Option<HiveSpec>)
      modifies hiveRegister`log
      ensures var n := FirstRejected(specs, hiveRegister.rejects);
        && hiveRegister.log == old(hiveRegister.log) + (if n < |specs| then specs[..n + 1] else specs)
        && failed == (if n < |specs| then Some(specs[n]) else None)
    {
      ghost var log0 := hiveRegister.log;
      var j := 0;
      while j < |specs|
        invariant 0 <= j <= |specs|
        invariant forall q :: 0 <= q < j ==> specs[q] !in hiveRegister.rejects
        invariant hiveRegister.log == log0 + specs[..j]
      {
        var ok := hiveRegister.Register(specs[j]);
        assert specs[..j + 1] == specs[..j] + [specs[j]];
        if !ok {
          assert FirstRejected(specs, hiveRegister.rejects) == j;
          return Some(specs[j]);
        }
        j := j + 1;
      }
      assert specs[..j] == specs;
      return None;
    }

    /**
      close: executor shutdown is attempted first and the closer is closed
      afterwards whatever shutdown did. As in a Java finally block, an
      exception from the closer replaces one from the shutdown. The closer
      closes the register only while it still holds it, so a second close
      does not close the register again.
      `shutdownFault` and `closeFault` say whether the two steps throw.
     */
    method Close(shutdownFault: bool, closeFault: bool) returns (error: Option<CloseError>)
      requires Valid()
      modifies this, hiveRegister`closed
      ensures Valid()
      ensures trace == old(trace) + [ExecutorShutdownAttempted, CloserCloseAttempted]
      ensures !executorRunning && !closerHoldsRegister && hiveRegister.closed
      ensures error == Some(CloserFailed) <==> old(closerHoldsRegister) && closeFault
      ensures error == Some(ShutdownFailed) <==> shutdownFault && !(old(closerHoldsRegister) && closeFault)
      ensures error.None? <==> !shutdownFault && !(old(closerHoldsRegister) && closeFault)
    {
      // try: ExecutorsUtils.shutdownExecutorService
      trace := trace + [ExecutorShutdownAttempted];
      executorRunning := false;
      error := if shutdownFault then Some(ShutdownFailed) else None;
      // finally: closer.close()
      trace := trace + [CloserCloseAttempted];
      if closerHoldsRegister {
        closerHoldsRegister := false;
        var ok := hiveRegister.Close(closeFault);
        if !ok {
          error := Some(CloserFailed);
        }
      }
    }
  }
}
