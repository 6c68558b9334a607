/**
  Path deduplication and task submission: the set of paths to register is the
  union of the PUBLISHER_DIRS lists of a batch of states, and exactly one
  policy task is submitted per path of that set.
 */
module Paths {
  import opened Hive

  /** State `s` records path `p` under PUBLISHER_DIRS. */
  predicate Records(s: WorkUnitState, p: Path)
  {
    s.publisherDirs.Some? && p in s.publisherDirs.value
  }

  /** The paths one state contributes; a state without the key contributes none. */
  function Contribution(s: WorkUnitState): (ps: set<Path>)
    ensures forall p :: p in ps <==> Records(s, p)
  {
    if s.publisherDirs.Some? then set p | p in s.publisherDirs.value else {}
  }

  /** The unique paths to register for a batch of states (reference definition). */
  function UniquePaths(states: seq<WorkUnitState>): set<Path>
  {
    if states == [] then {}
    else UniquePaths(states[..|states| - 1]) + Contribution(states[|states| - 1])
  }

  /** A path is to be registered iff some state of the batch records it. */
  lemma {:induction false} UniquePathsMembership(states: seq<WorkUnitState>, p: Path)
    ensures p in UniquePaths(states) <==> exists i :: 0 <= i < |states| && Records(states[i], p)
  {
    if states != [] {
      var init := states[..|states| - 1];
      UniquePathsMembership(init, p);
      if p in UniquePaths(init) {
        var i :| 0 <= i < |init| && Records(init[i], p);
        assert states[i] == init[i];
      }
      if exists i :: 0 <= i < |states| && Records(states[i], p) {
        var i :| 0 <= i < |states| && Records(states[i], p);
        if i < |init| {
          assert init[i] == states[i];
        }
      }
    }
  }

  /** The path set of two batches together is the union of their path sets. */
  lemma {:induction false} UniquePathsAppend(a: seq<WorkUnitState>, b: seq<WorkUnitState>)
    ensures UniquePaths(a + b) == UniquePaths(a) + UniquePaths(b)
  {
    forall p
      ensures p in UniquePaths(a + b) <==> p in UniquePaths(a) + UniquePaths(b)
    {
      UniquePathsMembership(a + b, p);
      UniquePathsMembership(a, p);
      UniquePathsMembership(b, p);
      if exists i :: 0 <= i < |a + b| && Records((a + b)[i], p) {
        var i :| 0 <= i < |a + b| && Records((a + b)[i], p);
        if i < |a| {
          assert (a + b)[i] == a[i];
        } else {
          assert (a + b)[i] == b[i - |a|];
        }
      }
      if exists i :: 0 <= i < |a| && Records(a[i], p) {
        var i :| 0 <= i < |a| && Records(a[i], p);
        assert (a + b)[i] == a[i];
      }
      if exists i :: 0 <= i < |b| && Records(b[i], p) {
        var i :| 0 <= i < |b| && Records(b[i], p);
        assert (a + b)[|a| + i] == b[i];
      }
    }
  }

  /** The path set depends only on which states the batch holds: neither
      their order nor repeated states change it. */
  lemma {:induction false} UniquePathsOrderInsensitive(a: seq<WorkUnitState>, b: seq<WorkUnitState>)
    requires forall s :: s in a <==> s in b
    ensures UniquePaths(a) == UniquePaths(b)
  {
    forall p
      ensures p in UniquePaths(a) ==> p in UniquePaths(b)
      ensures p in UniquePaths(b) ==> p in UniquePaths(a)
    {
      UniquePathsMembership(a, p);
      UniquePathsMembership(b, p);
      if p in UniquePaths(a) {
        var i :| 0 <= i < |a| && Records(a[i], p);
        assert a[i] in b;
        var j :| 0 <= j < |b| && b[j] == a[i];
      }
      if p in UniquePaths(b) {
        var j :| 0 <= j < |b| && Records(b[j], p);
        assert b[j] in a;
        var i :| 0 <= i < |a| && a[i] == b[j];
      }
    }
  }

  /** A state without the PUBLISHER_DIRS key adds nothing to the path set. */
  lemma {:induction false} StateWithoutKeyAddsNothing(a: seq<WorkUnitState>, s: WorkUnitState, b: seq<WorkUnitState>)
    requires s.publisherDirs.None?
    ensures UniquePaths(a + [s] + b) == UniquePaths(a + b)
  {
    UniquePathsAppend(a + [s], b);
    UniquePathsAppend(a, [s]);
    UniquePathsAppend(a, b);
    assert [s][..0] == [];
  }

  /** getUniquePathsToRegister: fills a set with addAll, state by state. */
  method GetUniquePathsToRegister(states: seq<WorkUnitState>) returns (paths: set<Path>)
    ensures paths == UniquePaths(states)
    ensures forall p :: p in paths <==> exists i :: 0 <= i < |states| && Records(states[i], p)
  {
    paths := {};
    var i := 0;
    while i < |states|
      invariant 0 <= i <= |states|
      invariant paths == UniquePaths(states[..i])
    {
      var state := states[i];
      if state.publisherDirs.Some? {
        paths := paths + set p | p in state.publisherDirs.value;
      }
      assert states[..i + 1][..i] == states[..i];
      i := i + 1;
    }
    assert states[..i] == states;
    forall p
      ensures p in paths <==> exists i :: 0 <= i < |states| && Records(states[i], p)
    {
      UniquePathsMembership(states, p);
    }
  }

  /** `order` lists every path of `paths` exactly once. */
  ghost predicate IsOrderingOf(order: seq<Path>, paths: set<Path>)
  {
    && |order| == |paths|
    && (forall i, j :: 0 <= i < j < |order| ==> order[i] != order[j])
    && (forall p :: p in paths <==> p in order)
  }

  /** A sequence without repetitions has each of its elements once. */
  lemma {:induction false} DistinctMultiset<T>(s: seq<T>)
    requires forall i, j :: 0 <= i < j < |s| ==> s[i] != s[j]
    ensures multiset(s) == multiset(set x | x in s)
  {
    if s != [] {
      var init, last := s[..|s| - 1], s[|s| - 1];
      DistinctMultiset(init);
      assert s == init + [last];
      var elems := set x | x in init;
      assert last !in elems;
      assert (set x | x in s) == elems + {last};
      assert multiset(elems + {last}) == multiset(elems) + multiset{last};
    }
  }

  /** Two orderings of one path set are rearrangements of each other. */
  lemma {:induction false} OrderingsArePermutations(o1: seq<Path>, o2: seq<Path>, paths: set<Path>)
    requires IsOrderingOf(o1, paths) && IsOrderingOf(o2, paths)
    ensures multiset(o1) == multiset(o2)
  {
    DistinctMultiset(o1);
    DistinctMultiset(o2);
    assert (set p | p in o1) == paths;
    assert (set p | p in o2) == paths;
  }

  /** The submission loop of publishData: one policy task per path, in some
      iteration order of the set; `tasks` lists the submitted tasks' paths. */
  method SubmitAll(paths: set<Path>) returns (tasks: seq<Path>)
    ensures IsOrderingOf(tasks, paths)
  {
    tasks := [];
    var remaining := paths;
    while remaining != {}
      invariant remaining <= paths
      invariant |tasks| + |remaining| == |paths|
      invariant forall i, j :: 0 <= i < j < |tasks| ==> tasks[i] != tasks[j]
      invariant forall p :: p in paths <==> p in tasks || p in remaining
      invariant forall p :: p in tasks ==> p !in remaining
      decreases |remaining|
    {
      var path :| path in remaining;
      tasks := tasks + [path];
      remaining := remaining - {path};
    }
  }
}
