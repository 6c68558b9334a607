/**
  Properties of the drain-and-register loop: what reaches the register, in
  which grouping, when the call succeeds, and what is left after a failure.
 */
module RegistrationLemmas {
  import opened Hive
  import opened Paths
  import opened Registration

  // ---------------------------------------------------------------------
  // Concatenation of per-task spec lists

  lemma AppendAssociative<T>(a: seq<T>, b: seq<T>, c: seq<T>)
    ensures a + (b + c) == (a + b) + c
  {
  }

  /** Extending a stretch of tasks by one appends that task's specs. */
  lemma {:induction false} SpecsBetweenSnoc(order: seq<Completed>, k: nat, f: nat)
    requires k <= f < |order|
    ensures SpecsBetween(order, k, f + 1) == SpecsBetween(order, k, f) + SpecsOf(order[f].outcome)
    decreases f - k
  {
    if k < f {
      SpecsBetweenSnoc(order, k + 1, f);
    }
  }

  /** A spec is among those of a stretch iff one of its tasks carries it. */
  lemma {:induction false} SpecsBetweenMembership(order: seq<Completed>, k: nat, f: nat, s: HiveSpec)
    requires k <= f <= |order|
    ensures s in SpecsBetween(order, k, f) <==> exists m :: k <= m < f && s in SpecsOf(order[m].outcome)
    decreases f - k
  {
    if k < f {
      SpecsBetweenMembership(order, k + 1, f, s);
      if exists m :: k <= m < f && s in SpecsOf(order[m].outcome) {
        var m :| k <= m < f && s in SpecsOf(order[m].outcome);
        if m > k {
          assert k + 1 <= m < f && s in SpecsOf(order[m].outcome);
        }
      }
    }
  }

  /** `o` without its i-th task. */
  function Remove(o: seq<Completed>, i: nat): (r: seq<Completed>)
    requires i < |o|
    ensures |r| == |o| - 1
  {
    seq(|o| - 1, j requires 0 <= j < |o| - 1 => if j < i then o[j] else o[j + 1])
  }

  /** Taking out task i leaves a multiset with one occurrence of it less. */
  lemma {:induction false} MultisetRemove(o: seq<Completed>, i: nat)
    requires i < |o|
    ensures multiset(o) == multiset(Remove(o, i)) + multiset{o[i]}
  {
    var r := Remove(o, i);
    assert o == r[..i] + [o[i]] + r[i..];
    assert r == r[..i] + r[i..];
  }

  /** How often spec x occurs among the specs of tasks k .. f - 1. */
  function SpecCount(o: seq<Completed>, k: nat, f: nat, x: HiveSpec): nat
    requires k <= f <= |o|
    decreases f - k
  {
    if k == f then 0 else multiset(SpecsOf(o[k].outcome))[x] + SpecCount(o, k + 1, f, x)
  }

  /** SpecCount is the multiplicity of x in the concatenation. */
  lemma {:induction false} SpecCountIsMultiplicity(o: seq<Completed>, k: nat, f: nat, x: HiveSpec)
    requires k <= f <= |o|
    ensures multiset(SpecsBetween(o, k, f))[x] == SpecCount(o, k, f, x)
    decreases f - k
  {
    if k < f {
      SpecCountIsMultiplicity(o, k + 1, f, x);
      var a, b := SpecsOf(o[k].outcome), SpecsBetween(o, k + 1, f);
      assert SpecsBetween(o, k, f) == a + b;
      assert multiset(a + b)[x] == multiset(a)[x] + multiset(b)[x];
    }
  }

  /** The tasks after the removed one keep their specs, one place earlier. */
  lemma {:induction false} SpecCountAfterRemoved(o: seq<Completed>, i: nat, k: nat, f: nat, x: HiveSpec)
    requires i < k <= f <= |o|
    ensures SpecCount(o, k, f, x) == SpecCount(Remove(o, i), k - 1, f - 1, x)
    decreases f - k
  {
    if k < f {
      SpecCountAfterRemoved(o, i, k + 1, f, x);
      assert Remove(o, i)[k - 1] == o[k];
    }
  }

  /** Taking out task i takes its specs out of the count. */
  lemma {:induction false} SpecCountRemoved(o: seq<Completed>, i: nat, k: nat, x: HiveSpec)
    requires k <= i < |o|
    ensures SpecCount(o, k, |o|, x)
              == SpecCount(Remove(o, i), k, |o| - 1, x) + multiset(SpecsOf(o[i].outcome))[x]
    decreases i - k
  {
    if k < i {
      SpecCountRemoved(o, i, k + 1, x);
      assert Remove(o, i)[k] == o[k];
    } else {
      SpecCountAfterRemoved(o, i, i + 1, |o|, x);
    }
  }

  /** Two completion orders that hold the same tasks pass each spec to the
      register equally often. */
  lemma {:induction false} SpecCountPermutation(o1: seq<Completed>, o2: seq<Completed>, x: HiveSpec)
    requires multiset(o1) == multiset(o2)
    ensures SpecCount(o1, 0, |o1|, x) == SpecCount(o2, 0, |o2|, x)
    decreases |o1|
  {
    if o1 == [] {
      assert |o2| == |multiset(o2)| == 0;
    } else {
      var first := o1[0];
      assert first in multiset(o2);
      var i :| 0 <= i < |o2| && o2[i] == first;
      var r1, r2 := Remove(o1, 0), Remove(o2, i);
      MultisetRemove(o1, 0);
      MultisetRemove(o2, i);
      forall c
        ensures multiset(r1)[c] == multiset(r2)[c]
      {
        assert multiset(o1)[c] == multiset(r1)[c] + multiset{first}[c];
        assert multiset(o2)[c] == multiset(r2)[c] + multiset{first}[c];
      }
      assert multiset(r1) == multiset(r2);
      SpecCountPermutation(r1, r2, x);
      SpecCountRemoved(o1, 0, 0, x);
      SpecCountRemoved(o2, i, 0, x);
    }
  }

  /** The concatenation's contents depend only on which tasks it covers:
      rearranging the completion order rearranges the specs. */
  lemma {:induction false} SpecsPermutation(o1: seq<Completed>, o2: seq<Completed>)
    requires multiset(o1) == multiset(o2)
    ensures multiset(SpecsBetween(o1, 0, |o1|)) == multiset(SpecsBetween(o2, 0, |o2|))
  {
    forall x
      ensures multiset(SpecsBetween(o1, 0, |o1|))[x] == multiset(SpecsBetween(o2, 0, |o2|))[x]
    {
      SpecCountPermutation(o1, o2, x);
      SpecCountIsMultiplicity(o1, 0, |o1|, x);
      SpecCountIsMultiplicity(o2, 0, |o2|, x);
    }
  }

  // ---------------------------------------------------------------------
  // One take

  /** A take passes to the register a prefix of its path's specs; it is
      clean iff its wait is not interrupted, its generation succeeded and
      the register accepts every one of its specs, and a clean take passes
      all of them. */
  lemma {:induction false} TakeAtFacts(order: seq<Completed>, interruptAt: Option<nat>, rejects: set<HiveSpec>, k: nat)
    requires k < |order|
    ensures var t := TakeAt(order, interruptAt, rejects, k);
      && t.calls <= SpecsOf(order[k].outcome)
      && (t.error.None? <==>
            && interruptAt != Some(k)
            && order[k].outcome.Generated?
            && forall s :: s in order[k].outcome.specs ==> s !in rejects)
      && (t.error.None? ==> t.calls == SpecsOf(order[k].outcome))
  {
    if interruptAt != Some(k) && order[k].outcome.Generated? {
      var specs := order[k].outcome.specs;
      var n := FirstRejected(specs, rejects);
      if n < |specs| {
        assert specs[n] in specs;
      } else {
        forall s | s in specs ensures s !in rejects {
          var j :| 0 <= j < |specs| && specs[j] == s;
        }
      }
    }
  }

  /** A take that raises: its cause and the part of its path's specs it
      passed to the register. */
  lemma {:induction false} FaultyTake(order: seq<Completed>, interruptAt: Option<nat>, rejects: set<HiveSpec>, k: nat)
    requires k < |order|
    requires !Clean(order, interruptAt, rejects, k)
    ensures var t := TakeAt(order, interruptAt, rejects, k);
      var e := t.error.value;
      && t.calls <= SpecsOf(order[k].outcome)
      && (e == Interrupted ==> interruptAt == Some(k) && t.calls == [])
      && (e.ExecutionFailed? ==> order[k].outcome == GenerationFailed(e.cause) && t.calls == [])
      && (e.RegisterFailed? ==>
            && e.spec in rejects
            && order[k].outcome.Generated?
            && |t.calls| > 0
            && t.calls[|t.calls| - 1] == e.spec)
      && e != SubmissionRejected
  {
    if interruptAt != Some(k) && order[k].outcome.Generated? {
      var specs := order[k].outcome.specs;
      var n := FirstRejected(specs, rejects);
      assert n < |specs|;
      assert specs[..n + 1] <= specs;
    }
  }

  /** Extending a common prefix by a prefix of `b` stays between `a` and `a + b`. */
  lemma {:induction false} PrefixBetween<T>(a: seq<T>, t: seq<T>, b: seq<T>)
    requires t <= b
    ensures a <= a + t <= a + b
  {
    assert forall j :: 0 <= j < |a| ==> (a + t)[j] == a[j];
    assert forall j :: 0 <= j < |a + t| ==> (a + t)[j] == (a + b)[j];
  }

  /** After a clean take k the run goes on with take k + 1, the specs of
      take k passed first. */
  lemma {:induction false} DrainFromStep(order: seq<Completed>, interruptAt: Option<nat>, rejects: set<HiveSpec>, k: nat)
    requires k < |order|
    requires Clean(order, interruptAt, rejects, k)
    ensures DrainFrom(order, interruptAt, rejects, k).status
              == DrainFrom(order, interruptAt, rejects, k + 1).status
    ensures DrainFrom(order, interruptAt, rejects, k).taken
              == DrainFrom(order, interruptAt, rejects, k + 1).taken + 1
  {
    TakeAtFacts(order, interruptAt, rejects, k);
  }

  /** After a clean take k, the specs of take k are passed first, then
      those of the run from take k + 1. */
  lemma {:induction false} DrainFromStepCalls(order: seq<Completed>, interruptAt: Option<nat>, rejects: set<HiveSpec>, k: nat)
    requires k < |order|
    requires Clean(order, interruptAt, rejects, k)
    ensures DrainFrom(order, interruptAt, rejects, k).calls
              == SpecsOf(order[k].outcome) + DrainFrom(order, interruptAt, rejects, k + 1).calls
  {
    TakeAtFacts(order, interruptAt, rejects, k);
  }

  // ---------------------------------------------------------------------
  // The shape of a run

  /** A run from take k makes at most one take per remaining result, and
      exactly one per remaining result when it succeeds. */
  lemma {:induction false} DrainFromTaken(order: seq<Completed>,
                                          interruptAt: Option<nat>, rejects: set<HiveSpec>, k: nat)
    requires k <= |order|
    ensures DrainFrom(order, interruptAt, rejects, k).taken <= |order| - k
    ensures DrainFrom(order, interruptAt, rejects, k).status.Published? ==>
              DrainFrom(order, interruptAt, rejects, k).taken == |order| - k
    decreases |order| - k
  {
    if k < |order| && Clean(order, interruptAt, rejects, k) {
      DrainFromTaken(order, interruptAt, rejects, k + 1);
    }
  }

  /** A run from take k succeeds iff every remaining take is clean. */
  lemma {:induction false} DrainFromPublished(order: seq<Completed>,
                                              interruptAt: Option<nat>, rejects: set<HiveSpec>, k: nat)
    requires k <= |order|
    ensures DrainFrom(order, interruptAt, rejects, k).status.Published? <==>
              forall m :: k <= m < |order| ==> Clean(order, interruptAt, rejects, m)
    decreases |order| - k
  {
    if k < |order| {
      if Clean(order, interruptAt, rejects, k) {
        DrainFromPublished(order, interruptAt, rejects, k + 1);
        assert DrainFrom(order, interruptAt, rejects, k).status
          == DrainFrom(order, interruptAt, rejects, k + 1).status;
      } else {
        assert DrainFrom(order, interruptAt, rejects, k).status.Failed?;
      }
    }
  }

  /** A successful run from take k passes to the register exactly the
      remaining tasks' specs, concatenated in completion order. */
  lemma {:induction false} DrainFromCalls(order: seq<Completed>,
                                          interruptAt: Option<nat>, rejects: set<HiveSpec>, k: nat)
    requires k <= |order|
    requires DrainFrom(order, interruptAt, rejects, k).status.Published?
    ensures DrainFrom(order, interruptAt, rejects, k).calls == SpecsBetween(order, k, |order|)
    decreases |order| - k
  {
    if k < |order| && Clean(order, interruptAt, rejects, k) {
      DrainFromStepCalls(order, interruptAt, rejects, k);
      DrainFromCalls(order, interruptAt, rejects, k + 1);
    }
  }

  /** A failed run from take k stops at the first take f that raises: every
      take before f is clean and f's error is reported. */
  lemma {:induction false} DrainFromFailedAt(order: seq<Completed>,
                                             interruptAt: Option<nat>, rejects: set<HiveSpec>, k: nat)
    requires k <= |order|
    requires DrainFrom(order, interruptAt, rejects, k).status.Failed?
    ensures 1 <= DrainFrom(order, interruptAt, rejects, k).taken <= |order| - k
    ensures forall m :: k <= m < k + DrainFrom(order, interruptAt, rejects, k).taken - 1 ==>
              Clean(order, interruptAt, rejects, m)
    ensures TakeAt(order, interruptAt, rejects, k + DrainFrom(order, interruptAt, rejects, k).taken - 1).error
              == Some(DrainFrom(order, interruptAt, rejects, k).status.error)
    decreases |order| - k
  {
    if Clean(order, interruptAt, rejects, k) {
      DrainFromFailedAt(order, interruptAt, rejects, k + 1);
      assert DrainFrom(order, interruptAt, rejects, k).status == DrainFrom(order, interruptAt, rejects, k + 1).status;
      assert DrainFrom(order, interruptAt, rejects, k).taken == DrainFrom(order, interruptAt, rejects, k + 1).taken + 1;
    }
  }

  /** A run from take k whose first take that raises is f makes f - k + 1
      takes and reports f's error. */
  lemma {:induction false} DrainFromFirstFault(order: seq<Completed>, interruptAt: Option<nat>,
                                               rejects: set<HiveSpec>, k: nat, f: nat)
    requires k <= f < |order|
    requires forall m :: k <= m < f ==> Clean(order, interruptAt, rejects, m)
    requires !Clean(order, interruptAt, rejects, f)
    ensures DrainFrom(order, interruptAt, rejects, k).status
              == Failed(TakeAt(order, interruptAt, rejects, f).error.value)
    ensures DrainFrom(order, interruptAt, rejects, k).taken == f - k + 1
    decreases f - k
  {
    if k < f {
      assert Clean(order, interruptAt, rejects, k);
      DrainFromStep(order, interruptAt, rejects, k);
      DrainFromFirstFault(order, interruptAt, rejects, k + 1, f);
    }
  }

  /** Over a stretch k .. f - 1 of clean takes the run passes every spec of
      the stretch before it goes on with take f. */
  lemma {:induction false} DrainFromCleanStretch(order: seq<Completed>, interruptAt: Option<nat>,
                                                 rejects: set<HiveSpec>, k: nat, f: nat)
    requires k <= f <= |order|
    requires forall m :: k <= m < f ==> Clean(order, interruptAt, rejects, m)
    ensures DrainFrom(order, interruptAt, rejects, k).calls
              == SpecsBetween(order, k, f) + DrainFrom(order, interruptAt, rejects, f).calls
    decreases f - k
  {
    if k < f {
      var first := SpecsOf(order[k].outcome);
      var next := DrainFrom(order, interruptAt, rejects, k + 1).calls;
      assert DrainFrom(order, interruptAt, rejects, k).calls == first + next by {
        DrainFromStepCalls(order, interruptAt, rejects, k);
      }
      assert next == SpecsBetween(order, k + 1, f) + DrainFrom(order, interruptAt, rejects, f).calls by {
        DrainFromCleanStretch(order, interruptAt, rejects, k + 1, f);
      }
      AppendAssociative(first, SpecsBetween(order, k + 1, f), DrainFrom(order, interruptAt, rejects, f).calls);
    }
  }

  /** The loop succeeds iff every take is clean; it then takes exactly
      |order| results and the register receives every task's specs,
      concatenated in completion order. */
  lemma {:induction false} DrainPublished(order: seq<Completed>, interruptAt: Option<nat>, rejects: set<HiveSpec>)
    ensures var r := Drain(order, interruptAt, rejects);
      && (r.status.Published? <==> forall m :: 0 <= m < |order| ==> Clean(order, interruptAt, rejects, m))
      && (r.status.Published? ==> r.taken == |order| && r.calls == SpecsBetween(order, 0, |order|))
  {
    DrainFromTaken(order, interruptAt, rejects, 0);
    DrainFromPublished(order, interruptAt, rejects, 0);
    if Drain(order, interruptAt, rejects).status.Published? {
      DrainFromCalls(order, interruptAt, rejects, 0);
    }
  }

  /** The loop stops at the first take that raises: the register has then
      received exactly the specs of the results drained before it, followed
      by the part of that take's specs up to the failing one. */
  lemma {:induction false} DrainFirstFault(order: seq<Completed>, interruptAt: Option<nat>, rejects: set<HiveSpec>, i: nat)
    requires i < |order|
    requires forall m :: 0 <= m < i ==> Clean(order, interruptAt, rejects, m)
    requires !Clean(order, interruptAt, rejects, i)
    ensures Drain(order, interruptAt, rejects).calls
              == SpecsBetween(order, 0, i) + TakeAt(order, interruptAt, rejects, i).calls
    ensures Drain(order, interruptAt, rejects).status
              == Failed(TakeAt(order, interruptAt, rejects, i).error.value)
    ensures Drain(order, interruptAt, rejects).taken == i + 1
  {
    DrainFromFirstFault(order, interruptAt, rejects, 0, i);
    DrainFromCleanStretch(order, interruptAt, rejects, 0, i);
  }

  /** Fail-fast without rollback: after a failure at the last take made,
      every result drained before it stays fully registered, and nothing of
      a result drained later reaches the register. Each cause is reported
      as it arose. */
  lemma {:induction false} DrainFailure(order: seq<Completed>, interruptAt: Option<nat>, rejects: set<HiveSpec>)
    ensures var r := Drain(order, interruptAt, rejects);
      r.status.Failed? ==>
        var f := r.taken - 1;
        && 0 <= f < |order|
        && SpecsBetween(order, 0, f) <= r.calls <= SpecsBetween(order, 0, f + 1)
        && (r.status.error == Interrupted ==>
              interruptAt == Some(f) && r.calls == SpecsBetween(order, 0, f))
        && (r.status.error.ExecutionFailed? ==>
              && order[f].outcome == GenerationFailed(r.status.error.cause)
              && r.calls == SpecsBetween(order, 0, f))
        && (r.status.error.RegisterFailed? ==>
              && r.status.error.spec in rejects
              && order[f].outcome.Generated?
              && |SpecsBetween(order, 0, f)| < |r.calls|
              && r.calls[|r.calls| - 1] == r.status.error.spec)
        && r.status.error != SubmissionRejected
  {
    var r := Drain(order, interruptAt, rejects);
    if r.status.Failed? {
      DrainFromFailedAt(order, interruptAt, rejects, 0);
      var f := r.taken - 1;
      DrainFirstFault(order, interruptAt, rejects, f);
      FaultyTake(order, interruptAt, rejects, f);
      SpecsBetweenSnoc(order, 0, f);
      PrefixBetween(SpecsBetween(order, 0, f), TakeAt(order, interruptAt, rejects, f).calls,
                    SpecsOf(order[f].outcome));
    }
  }

  // ---------------------------------------------------------------------
  // What reaches the register

  /** Every spec passed to the register belongs to the outcome of one of
      the results the loop has taken. */
  lemma {:induction false} RegistrationsComeFromTakenTasks(order: seq<Completed>, interruptAt: Option<nat>,
                                        rejects: set<HiveSpec>, s: HiveSpec)
    requires s in Drain(order, interruptAt, rejects).calls
    ensures exists m :: 0 <= m < Drain(order, interruptAt, rejects).taken && m < |order|
                      && s in SpecsOf(order[m].outcome)
  {
    var r := Drain(order, interruptAt, rejects);
    DrainPublished(order, interruptAt, rejects);
    DrainFailure(order, interruptAt, rejects);
    DrainFromTaken(order, interruptAt, rejects, 0);
    var f := if r.status.Published? then |order| else r.taken;
    assert r.calls <= SpecsBetween(order, 0, f);
    assert s in SpecsBetween(order, 0, f) by {
      var j :| 0 <= j < |r.calls| && r.calls[j] == s;
      assert SpecsBetween(order, 0, f)[j] == s;
    }
    SpecsBetweenMembership(order, 0, f, s);
  }

  /** The specs of one result are registered back to back, in the order the
      policy listed them: once takes 0 .. m are clean, the register's calls
      hold result m's specs right after those of the results before it. */
  lemma {:induction false} DrainBlock(order: seq<Completed>, interruptAt: Option<nat>, rejects: set<HiveSpec>, m: nat)
    requires m < |order|
    requires forall j :: 0 <= j <= m ==> Clean(order, interruptAt, rejects, j)
    ensures var calls, lo, hi := Drain(order, interruptAt, rejects).calls,
                                 |SpecsBetween(order, 0, m)|, |SpecsBetween(order, 0, m + 1)|;
      && lo <= hi <= |calls|
      && calls[lo..hi] == SpecsOf(order[m].outcome)
  {
    DrainFromCleanStretch(order, interruptAt, rejects, 0, m + 1);
    SpecsBetweenSnoc(order, 0, m);
    var calls := Drain(order, interruptAt, rejects).calls;
    var lo, hi := |SpecsBetween(order, 0, m)|, |SpecsBetween(order, 0, m + 1)|;
    assert calls[..hi] == SpecsBetween(order, 0, m + 1);
    assert calls[lo..hi] == calls[..hi][lo..];
  }

  /** A take before any interruption is clean iff its result was generated
      and the register accepts all of its specs. */
  lemma {:induction false} CleanUninterrupted(order: seq<Completed>, interruptAt: Option<nat>,
                                              rejects: set<HiveSpec>, k: nat)
    requires k < |order|
    requires interruptAt.None? || interruptAt.value >= |order|
    ensures Clean(order, interruptAt, rejects, k) <==> Acceptable(order[k], rejects)
  {
    TakeAtFacts(order, interruptAt, rejects, k);
  }

  /** The result of one task goes through: its generation succeeded and the
      register accepts each of its specs. */
  predicate Acceptable(c: Completed, rejects: set<HiveSpec>)
  {
    c.outcome.Generated? && forall s :: s in c.outcome.specs ==> s !in rejects
  }

  /** Without an interruption the loop succeeds iff every result is
      acceptable: success does not depend on the completion order. */
  lemma {:induction false} DrainUninterrupted(order: seq<Completed>, interruptAt: Option<nat>, rejects: set<HiveSpec>)
    requires interruptAt.None? || interruptAt.value >= |order|
    ensures Drain(order, interruptAt, rejects).status.Published? <==>
              forall c :: c in order ==> Acceptable(c, rejects)
  {
    DrainPublished(order, interruptAt, rejects);
    forall k | 0 <= k < |order|
      ensures Clean(order, interruptAt, rejects, k) <==> Acceptable(order[k], rejects)
    {
      CleanUninterrupted(order, interruptAt, rejects, k);
    }
  }

  /** Rearranging the completion order of uninterrupted runs changes
      neither whether the loop succeeds nor, when it does, which specs reach
      the register: only their order. This rests on the register refusing
      a fixed set of specs, whatever it received before. (Which failure is
      reported does depend on the order.) */
  lemma {:induction false} CompletionOrderAffectsOnlyOrder(o1: seq<Completed>, o2: seq<Completed>,
                                        interruptAt: Option<nat>, rejects: set<HiveSpec>)
    requires multiset(o1) == multiset(o2)
    requires interruptAt.None? || interruptAt.value >= |o1|
    ensures Drain(o1, interruptAt, rejects).status.Published? <==> Drain(o2, interruptAt, rejects).status.Published?
    ensures Drain(o1, interruptAt, rejects).status.Published? ==>
              multiset(Drain(o1, interruptAt, rejects).calls) == multiset(Drain(o2, interruptAt, rejects).calls)
  {
    assert |o1| == |multiset(o1)| == |multiset(o2)| == |o2|;
    DrainUninterrupted(o1, interruptAt, rejects);
    DrainUninterrupted(o2, interruptAt, rejects);
    forall c ensures c in o1 <==> c in o2 {
      assert c in o1 <==> c in multiset(o1);
      assert c in o2 <==> c in multiset(o2);
    }
    DrainPublished(o1, interruptAt, rejects);
    DrainPublished(o2, interruptAt, rejects);
    SpecsPermutation(o1, o2);
  }

  /** Results without specs register nothing; without an interruption the
      loop then succeeds. */
  lemma {:induction false} DrainNothingToRegister(order: seq<Completed>, interruptAt: Option<nat>, rejects: set<HiveSpec>)
    requires forall k :: 0 <= k < |order| ==> order[k].outcome == Generated([])
    ensures Drain(order, interruptAt, rejects).calls == []
    ensures (interruptAt.None? || interruptAt.value >= |order|) ==>
              Drain(order, interruptAt, rejects).status.Published?
  {
    var calls := Drain(order, interruptAt, rejects).calls;
    if calls != [] {
      RegistrationsComeFromTakenTasks(order, interruptAt, rejects, calls[0]);
    }
    if interruptAt.None? || interruptAt.value >= |order| {
      DrainUninterrupted(order, interruptAt, rejects);
      forall c | c in order ensures Acceptable(c, rejects) {
        var k :| 0 <= k < |order| && order[k] == c;
      }
    }
  }
}
