# Hive registration publisher, modelled in Dafny

Gobblin's `HiveRegistrationPublisher` is a job-level data publisher. It publishes no data itself. It reads the paths that an earlier publisher recorded in each completed work-unit state under the `PUBLISHER_DIRS` property, takes the union of those paths, and submits one registration-policy task per path to a thread pool. It then drains the results in completion order, passing every Hive spec of each result to the Hive register. `close` shuts the pool down and then, in a `finally` block, closes the `Closer` that holds the register handle.

This project models the sequential core of that publisher:

- `hive.dfy` (module `Hive`) holds the collaborators, reduced to what the publisher observes:
  - a work-unit state is an optional list of paths;
  - a policy outcome is either a list of specs or a generation failure;
  - the register is a class whose `log` records every spec passed to it, and which refuses a fixed set of specs.
- `paths.dfy` (module `Paths`) holds path deduplication (`getUniquePathsToRegister`) and the submission loop.
- `registration.dfy` (module `Registration`) is a reference semantics of the drain loop. The thread pool and completion service become an input: the completed tasks, in the order they complete, with their outcomes. An optional index names the `take()` whose wait is interrupted.
- `registration_lemmas.dfy` (module `RegistrationLemmas`) holds the properties of the drain loop:
  - the loop bound;
  - success;
  - fail-fast without rollback;
  - contiguous registration per path;
  - provenance of every registered spec;
  - independence from the completion order.
- `publisher.dfy` (module `Publisher`) is the publisher class itself. Its fields are the register, the executor state, the closer's hold on the register, and a trace of lifecycle steps. `PublishData` is imperative, and each loop in it is proved against the reference semantics. `Close` keeps the try/finally order.
- `publish_lemmas.dfy` (module `PublishLemmas`) holds properties of a whole `publishData` call.

The code of `close` is a Java `try`/`finally`, so an exception thrown by `closer.close()` replaces the one thrown by the executor shutdown; the model follows the code (`Publisher.HiveRegistrationPublisher.Close`).

Only `InterruptedException` and `ExecutionException` are wrapped in an `IOException`, which the code catches at line 107. An exception thrown by `register` propagates as it is. The model keeps the two apart: `RegisterFailed` versus `Interrupted` and `ExecutionFailed`.

## Model

| member | source | states |
|---|---|---|
| Paths.GetUniquePathsToRegister | gobblin-core/src/main/java/gobblin/publisher/HiveRegistrationPublisher.java:115-123 | The loop that fills the set with `addAll` returns exactly the paths some state records under `PUBLISHER_DIRS`. A state without the key contributes nothing. |
| Paths.UniquePathsMembership | gobblin-core/src/main/java/gobblin/publisher/HiveRegistrationPublisher.java:115-123 | A path is in the path set iff some state of the batch records it. |
| Paths.UniquePathsAppend | gobblin-core/src/main/java/gobblin/publisher/HiveRegistrationPublisher.java:116-121 | The path set of two batches together is the union of their path sets. |
| Paths.UniquePathsOrderInsensitive | gobblin-core/src/main/java/gobblin/publisher/HiveRegistrationPublisher.java:116-119 | Two batches holding the same states, in any order and with any repetitions, have the same path set. |
| Paths.StateWithoutKeyAddsNothing | gobblin-core/src/main/java/gobblin/publisher/HiveRegistrationPublisher.java:118 | Inserting a state without `PUBLISHER_DIRS` anywhere in a batch leaves the path set unchanged. |
| Paths.SubmitAll | gobblin-core/src/main/java/gobblin/publisher/HiveRegistrationPublisher.java:91-100 | The submission loop submits exactly one task per path of the set: its task list has no repetition and holds exactly the set's paths. |
| Paths.OrderingsArePermutations | gobblin-core/src/main/java/gobblin/publisher/HiveRegistrationPublisher.java:91-102 | Two orderings of one path set are permutations of each other. The completion service therefore hands back exactly the submitted tasks, whatever order they complete in. |
| Registration.FirstRejected | gobblin-core/src/main/java/gobblin/publisher/HiveRegistrationPublisher.java:104-105 | The position where registering specs one by one throws: every spec before it is accepted, and the spec at it (if any) is refused. |
| Registration.Publish | gobblin-core/src/main/java/gobblin/publisher/HiveRegistrationPublisher.java:85-113 | An empty path set registers nothing and succeeds. A non-empty one submitted to a shut-down executor is rejected before any registration. |
| Hive.HiveRegister.Register | gobblin-core/src/main/java/gobblin/publisher/HiveRegistrationPublisher.java:105 | Every spec passed to the register is appended to its log. The call fails exactly for the specs the metastore refuses. |
| Hive.HiveRegister.Close | gobblin-core/src/main/java/gobblin/publisher/HiveRegistrationPublisher.java:76 | Closing the register handle leaves it closed, whether or not closing throws. |
| Publisher.HiveRegistrationPublisher.constructor | gobblin-core/src/main/java/gobblin/publisher/HiveRegistrationPublisher.java:63-69 | A new publisher holds a fresh, empty register registered with its closer, and a running executor. |
| Publisher.HiveRegistrationPublisher.PublishData | gobblin-core/src/main/java/gobblin/publisher/HiveRegistrationPublisher.java:85-113 | publishData (dedup, submission, counted drain) appends to the register log exactly the specs the reference semantics `Publish` gives, and ends with its status. |
| Publisher.HiveRegistrationPublisher.DrainAll | gobblin-core/src/main/java/gobblin/publisher/HiveRegistrationPublisher.java:102-111 | The counted drain loop appends exactly the calls of `Drain` to the log and ends as `Drain` does. The loop invariant: every take so far was clean, and the log holds their specs in completion order. |
| Publisher.HiveRegistrationPublisher.TakeAndRegister | gobblin-core/src/main/java/gobblin/publisher/HiveRegistrationPublisher.java:103-110 | One iteration of the drain loop appends one take's registrations to the log and raises that take's error. The error is an interruption, a generation failure, or the first refused spec. |
| Publisher.HiveRegistrationPublisher.RegisterEach | gobblin-core/src/main/java/gobblin/publisher/HiveRegistrationPublisher.java:104-106 | The inner loop passes the specs to the register in the collection's order, up to and including the first refused one, which it reports. |
| Publisher.HiveRegistrationPublisher.Close | gobblin-core/src/main/java/gobblin/publisher/HiveRegistrationPublisher.java:72-78 | close attempts executor shutdown first and then always closes the closer. The closer releases the register. A closer failure replaces a shutdown failure. close fails iff one of the attempted steps throws. |
| RegistrationLemmas.TakeAtFacts | gobblin-core/src/main/java/gobblin/publisher/HiveRegistrationPublisher.java:103-110 | A take registers a prefix of its path's specs. It raises nothing iff it is not interrupted, its generation succeeded and every spec is accepted, and it then registers them all. |
| RegistrationLemmas.FaultyTake | gobblin-core/src/main/java/gobblin/publisher/HiveRegistrationPublisher.java:104-110 | A take that raises: an interruption or a generation failure registers nothing. A register failure ends with the refused spec. No take reports a rejected submission. |
| RegistrationLemmas.SpecsBetweenMembership | gobblin-core/src/main/java/gobblin/publisher/HiveRegistrationPublisher.java:104-106 | A spec is among those of a stretch of completed tasks iff one of those tasks' outcomes carries it. |
| RegistrationLemmas.SpecsPermutation | gobblin-core/src/main/java/gobblin/publisher/HiveRegistrationPublisher.java:102-106 | Rearranging the completed tasks rearranges the concatenation of their specs, and no more. |
| RegistrationLemmas.DrainFromStep | gobblin-core/src/main/java/gobblin/publisher/HiveRegistrationPublisher.java:102-106 | After a clean take, the loop goes on with the next take: same outcome, one take more. |
| RegistrationLemmas.DrainFromStepCalls | gobblin-core/src/main/java/gobblin/publisher/HiveRegistrationPublisher.java:104-106 | After a clean take, that take's specs reach the register first, ahead of everything the rest of the loop registers. |
| RegistrationLemmas.DrainFromTaken | gobblin-core/src/main/java/gobblin/publisher/HiveRegistrationPublisher.java:102 | From any take on, the loop makes at most one take per remaining result, and exactly one per remaining result when it succeeds. |
| RegistrationLemmas.DrainFromPublished | gobblin-core/src/main/java/gobblin/publisher/HiveRegistrationPublisher.java:102-111 | From any take on, the loop succeeds iff every remaining take is clean. |
| RegistrationLemmas.DrainFromCalls | gobblin-core/src/main/java/gobblin/publisher/HiveRegistrationPublisher.java:102-111 | A successful remainder of the loop registers every remaining task's specs, concatenated in completion order. |
| RegistrationLemmas.DrainFromFailedAt | gobblin-core/src/main/java/gobblin/publisher/HiveRegistrationPublisher.java:107-110 | A failed remainder of the loop stops at the take it last made: the takes before it were clean, and that one was not. |
| RegistrationLemmas.DrainFromFirstFault | gobblin-core/src/main/java/gobblin/publisher/HiveRegistrationPublisher.java:107-110 | When the first unclean take is take i, the loop reports its error right after it, having made exactly the takes up to i. |
| RegistrationLemmas.DrainFromCleanStretch | gobblin-core/src/main/java/gobblin/publisher/HiveRegistrationPublisher.java:102-106 | Across a stretch of clean takes, the register receives the stretch's specs in order, followed by whatever the loop registers afterwards. |
| RegistrationLemmas.DrainPublished | gobblin-core/src/main/java/gobblin/publisher/HiveRegistrationPublisher.java:102-112 | The loop succeeds iff every take is clean. It then makes one take per task and registers the concatenation of all specs in completion order, so an empty collection contributes nothing. |
| RegistrationLemmas.DrainFirstFault | gobblin-core/src/main/java/gobblin/publisher/HiveRegistrationPublisher.java:104-110 | At the first unclean take i, the log holds exactly the specs of the results drained before it, followed by that take's own registrations. The loop fails with that take's error after i + 1 takes. |
| RegistrationLemmas.DrainFailure | gobblin-core/src/main/java/gobblin/publisher/HiveRegistrationPublisher.java:104-110 | Fail-fast without rollback. A failed call keeps every earlier result's specs and registers nothing of a later result. An interruption or an execution failure adds nothing from the failing result. A register failure ends with the refused spec, and later specs never reach the register. |
| RegistrationLemmas.RegistrationsComeFromTakenTasks | gobblin-core/src/main/java/gobblin/publisher/HiveRegistrationPublisher.java:102-106 | Every spec passed to the register belongs to a result the loop took. |
| RegistrationLemmas.DrainBlock | gobblin-core/src/main/java/gobblin/publisher/HiveRegistrationPublisher.java:104-106 | A cleanly drained result's specs are one contiguous block of the register's calls, in collection order, with no spec of another path interleaved. |
| RegistrationLemmas.CleanUninterrupted | gobblin-core/src/main/java/gobblin/publisher/HiveRegistrationPublisher.java:103-107 | An uninterrupted take is clean iff its generation succeeded and the register accepts all of its specs. |
| RegistrationLemmas.DrainUninterrupted | gobblin-core/src/main/java/gobblin/publisher/HiveRegistrationPublisher.java:102-111 | Without an interruption, the loop succeeds iff every completed result is acceptable, for a register whose refusals depend on the spec alone. |
| RegistrationLemmas.CompletionOrderAffectsOnlyOrder | gobblin-core/src/main/java/gobblin/publisher/HiveRegistrationPublisher.java:102-111 | For uninterrupted runs and a register whose refusals depend on the spec alone, rearranging the completion order changes neither success nor, on success, the multiset of registered specs. |
| RegistrationLemmas.DrainNothingToRegister | gobblin-core/src/main/java/gobblin/publisher/HiveRegistrationPublisher.java:104-106 | Results with empty spec collections never reach the register. Without an interruption the loop then succeeds. |
| PublishLemmas.PublishTakesOnePerPath | gobblin-core/src/main/java/gobblin/publisher/HiveRegistrationPublisher.java:89-102 | publishData makes at most one take per unique path, and exactly one per path on success. An empty path set never calls the register. |
| PublishLemmas.PublishRegistersOnlyRecordedPaths | gobblin-core/src/main/java/gobblin/publisher/HiveRegistrationPublisher.java:89-106 | Every registered spec was generated for a path of the deduplicated path set. |
| PublishLemmas.PublishContiguousPerPath | gobblin-core/src/main/java/gobblin/publisher/HiveRegistrationPublisher.java:104-106 | In a whole publishData call, each cleanly drained path's specs form one block of the register's calls. |
| PublishLemmas.PublishWithoutPaths | gobblin-core/src/main/java/gobblin/publisher/HiveRegistrationPublisher.java:89-102 | A batch recording no paths submits nothing, registers nothing and succeeds. |
| PublishLemmas.CompletedTasksDistinct | gobblin-core/src/main/java/gobblin/publisher/HiveRegistrationPublisher.java:91-100 | The completed tasks are distinct, because exactly one task is submitted per unique path. |
| PublishLemmas.CompletedTaskInOther | gobblin-core/src/main/java/gobblin/publisher/HiveRegistrationPublisher.java:91-104 | With one outcome per path, a task of one completion order is a task of the other. |
| PublishLemmas.SameTasksInAnyOrder | gobblin-core/src/main/java/gobblin/publisher/HiveRegistrationPublisher.java:91-104 | With one outcome per path, any two completion orders of one batch hold the same completed tasks. |
| PublishLemmas.PublishCompletionOrderIrrelevant | gobblin-core/src/main/java/gobblin/publisher/HiveRegistrationPublisher.java:85-113 | With one outcome per path, no interruption and a register whose refusals depend on the spec alone, neither success nor, on success, the multiset of registered specs depends on the completion order. |
| PublishLemmas.PublishStateOrderInsensitive | gobblin-core/src/main/java/gobblin/publisher/HiveRegistrationPublisher.java:115-123 | The order of the states, and repeated states, change nothing about a publishData call. |

## Left out

- The thread pool, its thread factory and thread count, and `ExecutorCompletionService` (lines 61, 67-68, 86-87). Their only role is concurrency. They are replaced by an input: the completed tasks in completion order, which must be an ordering of the path set, plus the index of an interrupted `take()`, if any.
- Tasks still outstanding after an early failure are neither cancelled nor awaited by publishData. The model says nothing about them.
- `HiveRegistrationPolicy.getHiveSpecs` and the metastore behind `HiveRegister.register` are not part of this model. Each policy task's outcome is an input. The register refuses a fixed set of specs.
- Parsing by `State.getPropAsList` and `ConfigurationKeys` are not part of this model. A state is an optional list of path strings under one key, and Hadoop `Path` construction is dropped.
- Logging (`log.info`) and the `HiveRegProps` thread-count configuration are left out, because they have no effect on what is registered.
- `ExecutorsUtils.shutdownExecutorService` is reduced to one fault flag. Its waiting and timeout behaviour is I/O.
- `initialize` (lines 80-82) and `publishMetadata` (lines 125-128) have empty bodies, so there is nothing to model.
- `EventBasedExtractor` is an empty abstract class, so there is nothing to model.
- Publisher.HiveRegistrationPublisher.PublishData: the rejection of a submission to a shut-down executor is modelled at the first submission, before any task runs. Once the executor is closed, it rejects every task alike, so nothing of a partial submission is observable.
- Publisher.HiveRegistrationPublisher.Close: when both steps throw, only the closer's exception is reported, as in a Java `finally` block. The shutdown exception is then lost, and the model does not record it.
- RegistrationLemmas.DrainUninterrupted, RegistrationLemmas.CompletionOrderAffectsOnlyOrder, PublishLemmas.PublishCompletionOrderIrrelevant: these hold for a register whose refusals depend on the spec alone, which is the register the model has. A metastore whose refusals depend on earlier registrations or on transient faults is not modelled, and for it the completion order can change whether publishData succeeds.
