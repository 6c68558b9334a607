/**
  Reference semantics of the drain-and-register loop of publishData. The
  completion service is replaced by `order`, the policy tasks in the order
  in which they complete, each with its path and its outcome (their paths
  are an ordering of the path set), and `interruptAt` names the take()
  whose wait is interrupted, if any. A run records the specs passed to the register, how
  the call ends and how many take() calls it made.
 */
module Registration {
  import opened Hive
  import opened Paths

  /** How publishData fails. Execution and interruption failures are the
      ones wrapped in an IOException; a register failure propagates as the
      register raised it; a submission to a shut-down executor is rejected. */
  datatype PublishError =
    | ExecutionFailed(cause: string)
    | Interrupted
    | RegisterFailed(spec: HiveSpec)
    | SubmissionRejected

  datatype Status = Published | Failed(error: PublishError)

  datatype Run = Run(calls: seq<HiveSpec>, status: Status, taken: nat)

  /** What one take() leads to: the specs passed to the register and the
      error raised, if any. */
  datatype Take = Take(calls: seq<HiveSpec>, error: Option<PublishError>)

  /** The paths of the completed tasks, in completion order. */
  function PathsOf(order: seq<Completed>): (ps: seq<Path>)
    ensures |ps| == |order|
    ensures forall i :: 0 <= i < |order| ==> ps[i] == order[i].path
  {
    seq(|order|, i requires 0 <= i < |order| => order[i].path)
  }

  /** The specs of the tasks k .. f - 1 of `order`, concatenated in that order. */
  function SpecsBetween(order: seq<Completed>, k: nat, f: nat): seq<HiveSpec>
    requires k <= f <= |order|
    decreases f - k
  {
    if k == f then [] else SpecsOf(order[k].outcome) + SpecsBetween(order, k + 1, f)
  }

  /** The position of the first spec the register refuses (|specs| if none):
      registering specs one by one throws at that spec. */
  function FirstRejected(specs: seq<HiveSpec>, rejects: set<HiveSpec>): (n: nat)
    ensures n <= |specs|
    ensures forall j :: 0 <= j < n ==> specs[j] !in rejects
    ensures n < |specs| ==> specs[n] in rejects
  {
    if specs == [] || specs[0] in rejects then 0
    else 1 + FirstRejected(specs[1..], rejects)
  }

  /** The k-th take(): interrupted, a failed generation, or the path's specs
      registered back to back up to the first one the register refuses. */
  function TakeAt(order: seq<Completed>, interruptAt: Option<nat>,
                  rejects: set<HiveSpec>, k: nat): Take
    requires k < |order|
  {
    if interruptAt == Some(k) then Take([], Some(Interrupted))
    else match order[k].outcome
      case GenerationFailed(cause) => Take([], Some(ExecutionFailed(cause)))
      case Generated(specs) =>
        var n := FirstRejected(specs, rejects);
        if n < |specs| then Take(specs[..n + 1], Some(RegisterFailed(specs[n])))
        else Take(specs, None)
  }

  /** The k-th take registers all of its path's specs and raises nothing. */
  predicate Clean(order: seq<Completed>, interruptAt: Option<nat>,
                  rejects: set<HiveSpec>, k: nat)
    requires k < |order|
  {
    TakeAt(order, interruptAt, rejects, k).error.None?
  }

  /** The loop from its k-th take on: stops at the first take that raises. */
  function DrainFrom(order: seq<Completed>, interruptAt: Option<nat>,
                     rejects: set<HiveSpec>, k: nat): Run
    requires k <= |order|
    decreases |order| - k
  {
    if k == |order| then Run([], Published, 0)
    else
      var t := TakeAt(order, interruptAt, rejects, k);
      if t.error.Some? then Run(t.calls, Failed(t.error.value), 1)
      else
        var rest := DrainFrom(order, interruptAt, rejects, k + 1);
        Run(t.calls + rest.calls, rest.status, rest.taken + 1)
  }

  /** The whole drain loop: `|order|` takes at most. */
  function Drain(order: seq<Completed>, interruptAt: Option<nat>,
                 rejects: set<HiveSpec>): Run
  {
    DrainFrom(order, interruptAt, rejects, 0)
  }

  /** publishData on a batch of states: submission to a shut-down executor
      is rejected at the first path; otherwise the drain loop runs over the
      completion order. An empty path set registers nothing and succeeds. */
  function Publish(states: seq<WorkUnitState>, executorRunning: bool, completion: seq<Completed>,
                   interruptAt: Option<nat>, rejects: set<HiveSpec>): (r: Run)
    requires IsOrderingOf(PathsOf(completion), UniquePaths(states))
    ensures UniquePaths(states) == {} ==> r == Run([], Published, 0)
    ensures UniquePaths(states) != {} && !executorRunning ==> r == Run([], Failed(SubmissionRejected), 0)
  {
    if UniquePaths(states) != {} && !executorRunning then Run([], Failed(SubmissionRejected), 0)
    else Drain(completion, interruptAt, rejects)
  }
}
