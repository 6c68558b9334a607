/**
  Properties of publishData as a whole: how the path set bounds the takes,
  where every registered spec comes from, and what the completion order and
  the order of the states do not change.
 */
module PublishLemmas {
  import opened Hive
  import opened Paths
  import opened Registration
  import opened RegistrationLemmas

  /** At most one take() per unique path, and exactly one per path when the
      call succeeds; an empty path set never reaches the register. */
  lemma {:induction false} PublishTakesOnePerPath(states: seq<WorkUnitState>, executorRunning: bool, completion: seq<Completed>,
                               interruptAt: Option<nat>, rejects: set<HiveSpec>)
    requires IsOrderingOf(PathsOf(completion), UniquePaths(states))
    ensures var r := Publish(states, executorRunning, completion, interruptAt, rejects);
      && r.taken <= |UniquePaths(states)|
      && (r.status.Published? ==> r.taken == |UniquePaths(states)|)
      && (UniquePaths(states) == {} ==> r.calls == [])
  {
    DrainFromTaken(completion, interruptAt, rejects, 0);
  }

  /** Every spec passed to the register was generated for a path of the
      path set, that is, a path some state of the batch records
      (`UniquePathsMembership`). */
  lemma {:induction false} PublishRegistersOnlyRecordedPaths(states: seq<WorkUnitState>, executorRunning: bool,
                                          completion: seq<Completed>, interruptAt: Option<nat>,
                                          rejects: set<HiveSpec>, s: HiveSpec)
    requires IsOrderingOf(PathsOf(completion), UniquePaths(states))
    requires s in Publish(states, executorRunning, completion, interruptAt, rejects).calls
    ensures exists m :: && 0 <= m < |completion| && s in SpecsOf(completion[m].outcome)
                        && completion[m].path in UniquePaths(states)
  {
    RegistrationsComeFromTakenTasks(completion, interruptAt, rejects, s);
  }

  /** Each path's specs are one block of the register's calls once the loop
      has drained that path's result cleanly. */
  lemma {:induction false} PublishContiguousPerPath(states: seq<WorkUnitState>, executorRunning: bool,
                                 completion: seq<Completed>, interruptAt: Option<nat>,
                                 rejects: set<HiveSpec>, m: nat)
    requires IsOrderingOf(PathsOf(completion), UniquePaths(states))
    requires m < |completion|
    requires forall j :: 0 <= j <= m ==> Clean(completion, interruptAt, rejects, j)
    ensures var calls, lo, hi := Publish(states, executorRunning, completion, interruptAt, rejects).calls,
                                 |SpecsBetween(completion, 0, m)|, |SpecsBetween(completion, 0, m + 1)|;
      && (executorRunning ==> lo <= hi <= |calls| && calls[lo..hi] == SpecsOf(completion[m].outcome))
      && (!executorRunning ==> calls == [])
  {
    if executorRunning {
      DrainBlock(completion, interruptAt, rejects, m);
    }
  }

  /** A batch whose states record no paths registers nothing and succeeds. */
  lemma {:induction false} PublishWithoutPaths(states: seq<WorkUnitState>, executorRunning: bool, completion: seq<Completed>,
                            interruptAt: Option<nat>, rejects: set<HiveSpec>)
    requires forall i :: 0 <= i < |states| ==> states[i].publisherDirs.None? || states[i].publisherDirs.value == []
    requires IsOrderingOf(PathsOf(completion), UniquePaths(states))
    ensures Publish(states, executorRunning, completion, interruptAt, rejects).calls == []
    ensures Publish(states, executorRunning, completion, interruptAt, rejects).status == Published
  {
    forall p ensures p !in UniquePaths(states) {
      UniquePathsMembership(states, p);
    }
    assert UniquePaths(states) == {};
  }

  /** The tasks of a completion order are distinct, since their paths are. */
  lemma {:induction false} CompletedTasksDistinct(c: seq<Completed>, paths: set<Path>)
    requires IsOrderingOf(PathsOf(c), paths)
    ensures forall i, j :: 0 <= i < j < |c| ==> c[i] != c[j]
  {
    forall i, j | 0 <= i < j < |c| ensures c[i] != c[j] {
      assert PathsOf(c)[i] != PathsOf(c)[j];
    }
  }

  /** A task of one completion order is a task of the other, when the
      policy yields one outcome per path. */
  lemma {:induction false} CompletedTaskInOther(paths: set<Path>, c1: seq<Completed>, c2: seq<Completed>, i: nat)
    requires IsOrderingOf(PathsOf(c1), paths)
    requires IsOrderingOf(PathsOf(c2), paths)
    requires forall i, j :: 0 <= i < |c1| && 0 <= j < |c2| && c1[i].path == c2[j].path ==>
               c1[i].outcome == c2[j].outcome
    requires i < |c1|
    ensures c1[i] in c2
  {
    var p1, p2 := PathsOf(c1), PathsOf(c2);
    assert p1[i] in paths;
    var j :| 0 <= j < |c2| && p2[j] == p1[i];
    assert c1[i] == c2[j];
  }

  /** When the policy yields one outcome per path, two completion orders of
      one batch hold the same completed tasks. */
  lemma {:induction false} SameTasksInAnyOrder(paths: set<Path>, c1: seq<Completed>, c2: seq<Completed>)
    requires IsOrderingOf(PathsOf(c1), paths)
    requires IsOrderingOf(PathsOf(c2), paths)
    requires forall i, j :: 0 <= i < |c1| && 0 <= j < |c2| && c1[i].path == c2[j].path ==>
               c1[i].outcome == c2[j].outcome
    ensures multiset(c1) == multiset(c2)
  {
    CompletedTasksDistinct(c1, paths);
    CompletedTasksDistinct(c2, paths);
    DistinctMultiset(c1);
    DistinctMultiset(c2);
    forall i | 0 <= i < |c1| ensures c1[i] in c2 {
      CompletedTaskInOther(paths, c1, c2, i);
    }
    forall j | 0 <= j < |c2| ensures c2[j] in c1 {
      CompletedTaskInOther(paths, c2, c1, j);
    }
    assert (set c | c in c1) == (set c | c in c2);
  }

  /** With a policy that yields one outcome per path and no interruption,
      the order in which the tasks complete changes neither whether
      publishData succeeds nor, when it does, which specs it registers: only
      the order in which they are registered. The register's refusals depend
      on the spec alone. */
  lemma {:induction false} PublishCompletionOrderIrrelevant(states: seq<WorkUnitState>, executorRunning: bool,
                                         c1: seq<Completed>, c2: seq<Completed>, rejects: set<HiveSpec>)
    requires IsOrderingOf(PathsOf(c1), UniquePaths(states))
    requires IsOrderingOf(PathsOf(c2), UniquePaths(states))
    requires forall i, j :: 0 <= i < |c1| && 0 <= j < |c2| && c1[i].path == c2[j].path ==>
               c1[i].outcome == c2[j].outcome
    ensures var r1, r2 := Publish(states, executorRunning, c1, None, rejects),
                          Publish(states, executorRunning, c2, None, rejects);
      && (r1.status.Published? <==> r2.status.Published?)
      && (r1.status.Published? ==> multiset(r1.calls) == multiset(r2.calls))
  {
    SameTasksInAnyOrder(UniquePaths(states), c1, c2);
    CompletionOrderAffectsOnlyOrder(c1, c2, None, rejects);
  }

  /** The order of the states and repeated states do not change what
      publishData does. */
  lemma {:induction false} PublishStateOrderInsensitive(a: seq<WorkUnitState>, b: seq<WorkUnitState>, executorRunning: bool,
                                     completion: seq<Completed>, interruptAt: Option<nat>,
                                     rejects: set<HiveSpec>)
    requires forall s :: s in a <==> s in b
    requires IsOrderingOf(PathsOf(completion), UniquePaths(a))
    ensures IsOrderingOf(PathsOf(completion), UniquePaths(b))
    ensures Publish(a, executorRunning, completion, interruptAt, rejects)
              == Publish(b, executorRunning, completion, interruptAt, rejects)
  {
    UniquePathsOrderInsensitive(a, b);
  }
}
