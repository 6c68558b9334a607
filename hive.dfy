/**
  The collaborators of the Hive registration publisher, reduced to what the
  publisher observes of them: a work-unit state is the optional list of paths
  it records under PUBLISHER_DIRS, a Hive spec is an opaque value, the
  registration policy yields per path either a collection of specs or a
  failure, and the Hive register is a log of the specs passed to it.
 */
module Hive {

  datatype Option<+T> = None | Some(value: T)

  type Path = string

  /** A completed work-unit state; `publisherDirs` is None when the state
      does not contain the PUBLISHER_DIRS key. */
  datatype WorkUnitState = WorkUnitState(publisherDirs: Option<seq<Path>>)

  /** An opaque Hive registration spec; the model only compares specs. */
  datatype HiveSpec = HiveSpec(descriptor: string)

  /** What one policy task yields: the collection of specs for its path,
      or the failure that the task's future reports as an ExecutionException. */
  datatype Outcome = Generated(specs: seq<HiveSpec>) | GenerationFailed(cause: string)

  /** A task taken from the completion service: the path it was submitted
      for and the outcome its future holds. */
  datatype Completed = Completed(path: Path, outcome: Outcome)

  /** The specs an outcome carries; a failed generation carries none. */
  function SpecsOf(o: Outcome): seq<HiveSpec>
  {
    if o.Generated? then o.specs else []
  }

  /**
    The Hive register. `log` holds every spec passed to `Register`, in call
    order, including a spec whose registration failed; the metastore
    refuses exactly the specs in `rejects` (its internals are not modelled).
   */
  class HiveRegister {
    var log: seq<HiveSpec>
    var closed: bool
    const rejects: set<HiveSpec>

    constructor (rejects: set<HiveSpec>)
      ensures this.rejects == rejects && log == [] && !closed
    {
      this.rejects := rejects;
      log := [];
      closed := false;
    }

    /** Registers one spec; `ok` is false when the register throws. */
    method Register(spec: HiveSpec) returns (ok: bool)
      modifies this`log
      ensures log == old(log) + [spec]
      ensures ok <==> spec !in rejects
    {
      log := log + [spec];
      ok := spec !in rejects;
    }

    /** Closes the register handle; `fault` says whether closing throws. */
    method Close(fault: bool) returns (ok: bool)
      modifies this`closed
      ensures closed
      ensures ok <==> !fault
    {
      closed := true;
      ok := !fault;
    }
  }
}
