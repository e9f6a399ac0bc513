# Polling relay of the embedded CDC, in Dafny

This project models `PollingBasedEventTableChangesToAggregateTopicRelay`, the
polling variant of eventuate-local's change-data-capture relay. The relay moves
the rows of the `EVENTS` table to Kafka aggregate topics. `startCapturingChanges`
validates the environment, raises the `watcherRunning` flag, creates the startup
`CompletableFuture` and a Kafka producer, and starts a thread. While
`watcherRunning` holds, that thread repeats one cycle:

1. fetch the unpublished rows (`findEventsToPublish`);
2. hand each row to `handleEvent`, which publishes it;
3. if the batch was non-empty, mark exactly the batch's ids as published;
4. complete the future;
5. sleep `requestPeriodInMilliseconds`, but only when the batch was empty.

Any `Exception` in the cycle is caught and completes the future exceptionally,
and the loop goes on. `stopCapturingChanges` closes the producer, if one exists,
and clears the flag.

The model has four modules:

- `EventTable` is the table behind the DAO. The table is a sequence of rows
  (event plus `published` flag) in insertion order. It defines the pending-row
  query, the mark-by-id update, and the commits of other writers. The primary
  key makes the database reject an insert whose id is already taken.
- `Readiness` is the one-shot startup future: `complete` and
  `completeExceptionally` only act on a pending future.
- `PollingCycle` specifies one pass of the loop body as values. It gives the
  calls the pass makes, in order: fetch, each `handleEvent`, the mark, the
  settlement, the sleep. It also gives how the pass ends, the table it leaves,
  and the events it publishes. Failure points are a `Faults` parameter: the
  fetch throws, the `handleEvent` call for item k throws, or the mark throws.
  The lemmas state the relay's guarantees about that specification.
- `Relay` holds the class `PollingRelay`. Its fields are `watcherRunning`, the
  producer handle, the future, the table and the log of published events; a
  ghost field records every call made. `Start`, `Stop`, `RunCycle` (the loop
  body) and `Run` (the `while (watcherRunning)` loop) change them in place.
  `RunCycle` and the methods it calls are proved against the `PollingCycle`
  specification, and `Run` against a fold of it over the steps taken. The class
  invariant `Valid` states the no-loss property: every row marked published
  since the relay was created had its event published first.

The thread is replaced by the driver `Run`, which takes a list of steps. Each
step is either one loop pass or an external `stop` that falls between two
passes. Sleeping is recorded as a `Sleep(millis)` entry in the call log.

A few consequences of the code are worth stating up front:

- The first cycle decides the startup future. If it throws, the future fails
  for good, even though later cycles succeed (`Readiness.FirstCycleDecides`).
- No error count stops the loop. Of the failures the `catch (Exception e)`
  handles, none ends it; only `watcherRunning` becoming false does
  (`Relay.PollingRelay.Run`).
- `stopCapturingChanges` does not interrupt a sleeping thread. The thread sees
  the cleared flag only when it next checks the loop condition.
- A cycle that throws does not sleep. The next fetch follows at once and
  returns the same rows first (`PollingCycle.FailedCycleRepublishes`).

## Model

| member | source | states |
|---|---|---|
| `EventTable.FindEventsToPublish` | eventuate-local-java-embedded-cdc/src/main/java/io/eventuate/local/cdc/debezium/PollingBasedEventTableChangesToAggregateTopicRelay.java:58 | The fetch returns at most one event per row of the table |
| `EventTable.FindIsUnpublished` | eventuate-local-java-embedded-cdc/src/main/java/io/eventuate/local/cdc/debezium/PollingBasedEventTableChangesToAggregateTopicRelay.java:58 | An event is fetched if and only if some unpublished row carries it: no pending row is missed, no published row is returned |
| `EventTable.FindAppend` | eventuate-local-java-embedded-cdc/src/main/java/io/eventuate/local/cdc/debezium/PollingBasedEventTableChangesToAggregateTopicRelay.java:58 | The pending rows of a table followed by newer rows are the old pending rows, in order, followed by the newer pending rows |
| `EventTable.FindNewRows` | eventuate-local-java-embedded-cdc/src/main/java/io/eventuate/local/cdc/debezium/PollingBasedEventTableChangesToAggregateTopicRelay.java:58 | Freshly committed rows are all fetched, in commit order |
| `EventTable.AdmitFresh` | eventuate-local-java-embedded-cdc/src/main/java/io/eventuate/local/cdc/debezium/PollingBasedEventTableChangesToAggregateTopicRelay.java:58-73 | Other writers' inserts with fresh, pairwise distinct ids are all accepted, in commit order |
| `EventTable.EventIds` | eventuate-local-java-embedded-cdc/src/main/java/io/eventuate/local/cdc/debezium/PollingBasedEventTableChangesToAggregateTopicRelay.java:69-72 | The mark argument has one id per batch event, the k-th id being the k-th event's id |
| `EventTable.MarkEventsAsPublished` | eventuate-local-java-embedded-cdc/src/main/java/io/eventuate/local/cdc/debezium/PollingBasedEventTableChangesToAggregateTopicRelay.java:69-72 | Marking keeps every row and its event; a row ends up published if and only if it already was or its id is listed |
| `EventTable.MarkIdempotent` | eventuate-local-java-embedded-cdc/src/main/java/io/eventuate/local/cdc/debezium/PollingBasedEventTableChangesToAggregateTopicRelay.java:69-72 | Marking the same ids twice leaves the table as marking once |
| `EventTable.MarkAppend` | eventuate-local-java-embedded-cdc/src/main/java/io/eventuate/local/cdc/debezium/PollingBasedEventTableChangesToAggregateTopicRelay.java:69-72 | Marking a concatenated table marks each part on its own |
| `EventTable.MarkOthersUntouched` | eventuate-local-java-embedded-cdc/src/main/java/io/eventuate/local/cdc/debezium/PollingBasedEventTableChangesToAggregateTopicRelay.java:69-72 | Rows whose ids are not listed are left exactly as they were |
| `EventTable.MarkCoveringDrains` | eventuate-local-java-embedded-cdc/src/main/java/io/eventuate/local/cdc/debezium/PollingBasedEventTableChangesToAggregateTopicRelay.java:69-72 | Marking ids that cover every pending row leaves nothing pending |
| `EventTable.MarkBatchDrains` | eventuate-local-java-embedded-cdc/src/main/java/io/eventuate/local/cdc/debezium/PollingBasedEventTableChangesToAggregateTopicRelay.java:58-72 | Marking exactly the fetched batch's ids leaves no row of the table pending |
| `Readiness.Complete` | eventuate-local-java-embedded-cdc/src/main/java/io/eventuate/local/cdc/debezium/PollingBasedEventTableChangesToAggregateTopicRelay.java:75 | `complete(null)` turns a pending future into a successful one and leaves a settled future unchanged |
| `Readiness.CompleteExceptionally` | eventuate-local-java-embedded-cdc/src/main/java/io/eventuate/local/cdc/debezium/PollingBasedEventTableChangesToAggregateTopicRelay.java:84-86 | `completeExceptionally` turns a pending future into a failed one carrying the fault and leaves a settled future unchanged, including one that already succeeded |
| `Readiness.Settle` | eventuate-local-java-embedded-cdc/src/main/java/io/eventuate/local/cdc/debezium/PollingBasedEventTableChangesToAggregateTopicRelay.java:75-86 | The end of a cycle settles a pending future, with success exactly when the cycle ran through, and leaves a settled future unchanged |
| `Readiness.SettledStays` | eventuate-local-java-embedded-cdc/src/main/java/io/eventuate/local/cdc/debezium/PollingBasedEventTableChangesToAggregateTopicRelay.java:75-86 | Once settled, the future keeps its outcome whatever later cycles do |
| `Readiness.FirstCycleDecides` | eventuate-local-java-embedded-cdc/src/main/java/io/eventuate/local/cdc/debezium/PollingBasedEventTableChangesToAggregateTopicRelay.java:48-86 | After start, the first cycle decides the future: success if it ran through, even with an empty batch; failure with its fault if it threw |
| `Readiness.PendingIffNoCycle` | eventuate-local-java-embedded-cdc/src/main/java/io/eventuate/local/cdc/debezium/PollingBasedEventTableChangesToAggregateTopicRelay.java:48-86 | The future is pending exactly while no cycle has ended since start |
| `Readiness.SettleAllSnoc` | eventuate-local-java-embedded-cdc/src/main/java/io/eventuate/local/cdc/debezium/PollingBasedEventTableChangesToAggregateTopicRelay.java:75-86 | Each further cycle settles the future once more, on top of the earlier cycles |
| `PollingCycle.Attempted` | eventuate-local-java-embedded-cdc/src/main/java/io/eventuate/local/cdc/debezium/PollingBasedEventTableChangesToAggregateTopicRelay.java:58-63 | `handleEvent` is called at most once per fetched event, and not at all exactly when the fetch throws or returns nothing |
| `PollingCycle.PublishedIn` | eventuate-local-java-embedded-cdc/src/main/java/io/eventuate/local/cdc/debezium/PollingBasedEventTableChangesToAggregateTopicRelay.java:63 | The events published in a cycle are a prefix of those handed to `handleEvent`, one fewer when a call threw |
| `PollingCycle.Outcome` | eventuate-local-java-embedded-cdc/src/main/java/io/eventuate/local/cdc/debezium/PollingBasedEventTableChangesToAggregateTopicRelay.java:58-86 | The cycle ends with the fetch's exception exactly when the fetch throws; with the mark's exception exactly when the mark is reached and throws; with a `handleEvent` exception carrying the id of the last event attempted; and normally exactly when nothing throws. The id in a `handleEvent` fault names the failing item in the model; the Java exception is only known to wrap the cause's message |
| `PollingCycle.HandleCalls` | eventuate-local-java-embedded-cdc/src/main/java/io/eventuate/local/cdc/debezium/PollingBasedEventTableChangesToAggregateTopicRelay.java:63 | The `forEach` makes exactly one `handleEvent` call per event |
| `PollingCycle.CycleCalls` | eventuate-local-java-embedded-cdc/src/main/java/io/eventuate/local/cdc/debezium/PollingBasedEventTableChangesToAggregateTopicRelay.java:55-87 | A cycle starts with the fetch and makes two calls (fetch and settlement), plus one per attempted event, plus the mark when reached, plus the sleep when the batch was empty |
| `PollingCycle.HandleCallsAt` | eventuate-local-java-embedded-cdc/src/main/java/io/eventuate/local/cdc/debezium/PollingBasedEventTableChangesToAggregateTopicRelay.java:63 | The k-th `handleEvent` call of the `forEach` receives the k-th event |
| `PollingCycle.HandledOfHandleCalls` | eventuate-local-java-embedded-cdc/src/main/java/io/eventuate/local/cdc/debezium/PollingBasedEventTableChangesToAggregateTopicRelay.java:63 | The events handed to `handleEvent` by the `forEach` are the batch, in order |
| `PollingCycle.HandlesFollowFetchOrder` | eventuate-local-java-embedded-cdc/src/main/java/io/eventuate/local/cdc/debezium/PollingBasedEventTableChangesToAggregateTopicRelay.java:58-63 | One cycle calls `handleEvent` on exactly the fetched events, once each, in fetch order, up to and including a call that throws; with no throwing call, on the whole batch; the published events are a prefix of them |
| `PollingCycle.ForEachTail` | eventuate-local-java-embedded-cdc/src/main/java/io/eventuate/local/cdc/debezium/PollingBasedEventTableChangesToAggregateTopicRelay.java:63-83 | After the `forEach`: no further `handleEvent` call; a mark only first and only when reached; a sleep if and only if the batch was empty, after a successful settlement |
| `PollingCycle.CycleCallsAt` | eventuate-local-java-embedded-cdc/src/main/java/io/eventuate/local/cdc/debezium/PollingBasedEventTableChangesToAggregateTopicRelay.java:58-83 | A cycle's calls are the fetch, then `handleEvent` on each attempted event in batch order, then the calls after the `forEach` |
| `PollingCycle.MarkPosition` | eventuate-local-java-embedded-cdc/src/main/java/io/eventuate/local/cdc/debezium/PollingBasedEventTableChangesToAggregateTopicRelay.java:63-73 | A mark call sits right after the last `handleEvent` of a non-empty, fully handled batch, and carries the batch's ids |
| `PollingCycle.MarkAfterWholeBatch` | eventuate-local-java-embedded-cdc/src/main/java/io/eventuate/local/cdc/debezium/PollingBasedEventTableChangesToAggregateTopicRelay.java:63-73 | `markEventsAsPublished` is called at most once per cycle, only for a non-empty batch, with the batch's ids in batch order, and only after every event of the batch was handled |
| `PollingCycle.MarkIssuedForHandledBatch` | eventuate-local-java-embedded-cdc/src/main/java/io/eventuate/local/cdc/debezium/PollingBasedEventTableChangesToAggregateTopicRelay.java:65-73 | A non-empty batch whose events were all handled is always marked |
| `PollingCycle.SleepsOnlyWhenEmpty` | eventuate-local-java-embedded-cdc/src/main/java/io/eventuate/local/cdc/debezium/PollingBasedEventTableChangesToAggregateTopicRelay.java:60-83 | A cycle sleeps if and only if its fetch returned an empty batch; such a cycle makes no handle and no mark call, completes the future, then sleeps for the configured period |
| `PollingCycle.TableAfter` | eventuate-local-java-embedded-cdc/src/main/java/io/eventuate/local/cdc/debezium/PollingBasedEventTableChangesToAggregateTopicRelay.java:58-73 | A cycle never removes a row, changes an event or clears a published flag; the rows after the old table are exactly the rows other writers committed, with duplicate ids rejected |
| `PollingCycle.BatchIdsInTable` | eventuate-local-java-embedded-cdc/src/main/java/io/eventuate/local/cdc/debezium/PollingBasedEventTableChangesToAggregateTopicRelay.java:58-72 | Every id the cycle marks belongs to a row that existed when the batch was fetched |
| `PollingCycle.CommittedRowsUnmarked` | eventuate-local-java-embedded-cdc/src/main/java/io/eventuate/local/cdc/debezium/PollingBasedEventTableChangesToAggregateTopicRelay.java:69-72 | Marking by id list leaves rows committed during the cycle untouched |
| `PollingCycle.FailedCycleRepublishes` | eventuate-local-java-embedded-cdc/src/main/java/io/eventuate/local/cdc/debezium/PollingBasedEventTableChangesToAggregateTopicRelay.java:58-87 | A cycle that throws (fetch, handle or mark) marks nothing; the next fetch returns the same pending events first, in the same order, so they are republished (at-least-once) |
| `PollingCycle.CompletedCycleDrains` | eventuate-local-java-embedded-cdc/src/main/java/io/eventuate/local/cdc/debezium/PollingBasedEventTableChangesToAggregateTopicRelay.java:58-75 | After a cycle that runs through, none of its batch is pending; the next fetch returns only the rows committed while it ran |
| `PollingCycle.CyclePreservesNoLoss` | eventuate-local-java-embedded-cdc/src/main/java/io/eventuate/local/cdc/debezium/PollingBasedEventTableChangesToAggregateTopicRelay.java:58-73 | Whatever fails, a cycle marks only rows whose events were already published, so no event is marked without being sent |
| `Relay.PollingRelay.constructor` | eventuate-local-java-embedded-cdc/src/main/java/io/eventuate/local/cdc/debezium/PollingBasedEventTableChangesToAggregateTopicRelay.java:24-40 | A new relay is not running, has no producer and no future, and keeps the given table and sleep period |
| `Relay.PollingRelay.Start` | eventuate-local-java-embedded-cdc/src/main/java/io/eventuate/local/cdc/debezium/PollingBasedEventTableChangesToAggregateTopicRelay.java:42-49 | A failed environment validation changes nothing and hands out no future; otherwise the relay is running with an open producer and a fresh pending future |
| `Relay.PollingRelay.Stop` | eventuate-local-java-embedded-cdc/src/main/java/io/eventuate/local/cdc/debezium/PollingBasedEventTableChangesToAggregateTopicRelay.java:95-104 | Stop clears `watcherRunning`, closes the producer only if one was created, and changes nothing else; it is callable before any start |
| `Relay.PollingRelay.SettleFuture` | eventuate-local-java-embedded-cdc/src/main/java/io/eventuate/local/cdc/debezium/PollingBasedEventTableChangesToAggregateTopicRelay.java:75-86 | The end of a pass completes the future normally or exceptionally, by its outcome, and logs that call |
| `Relay.PollingRelay.HandleEach` | eventuate-local-java-embedded-cdc/src/main/java/io/eventuate/local/cdc/debezium/PollingBasedEventTableChangesToAggregateTopicRelay.java:63 | The `forEach` publishes the batch in order, stops at the first call that throws, and reports whether one did |
| `Relay.PollingRelay.MarkAndSettle` | eventuate-local-java-embedded-cdc/src/main/java/io/eventuate/local/cdc/debezium/PollingBasedEventTableChangesToAggregateTopicRelay.java:65-83 | After a full `forEach`, the batch's ids are marked if the batch is non-empty and the mark returns; then the future is settled, and an empty batch sleeps |
| `Relay.PollingRelay.PublishBatch` | eventuate-local-java-embedded-cdc/src/main/java/io/eventuate/local/cdc/debezium/PollingBasedEventTableChangesToAggregateTopicRelay.java:63-87 | The part of a pass after the fetch changes the table, the published log, the call log and the future exactly as the cycle specification says |
| `Relay.PollingRelay.RunCycle` | eventuate-local-java-embedded-cdc/src/main/java/io/eventuate/local/cdc/debezium/PollingBasedEventTableChangesToAggregateTopicRelay.java:55-87 | One pass leaves the table, published log, call log and future as the cycle specification gives them from the old state, keeps the relay running, and keeps the no-loss invariant |
| `Relay.FirstStop` | eventuate-local-java-embedded-cdc/src/main/java/io/eventuate/local/cdc/debezium/PollingBasedEventTableChangesToAggregateTopicRelay.java:55 | Locates the first stop request: every earlier step is a loop pass |
| `Relay.Polls` | eventuate-local-java-embedded-cdc/src/main/java/io/eventuate/local/cdc/debezium/PollingBasedEventTableChangesToAggregateTopicRelay.java:55-88 | Any series of loop passes keeps every row and its event and never clears a published flag |
| `Relay.PollsPreserveNoLoss` | eventuate-local-java-embedded-cdc/src/main/java/io/eventuate/local/cdc/debezium/PollingBasedEventTableChangesToAggregateTopicRelay.java:55-88 | Any series of loop passes, whatever fails in them, marks only rows whose events were published |
| `Relay.PollCount` | eventuate-local-java-embedded-cdc/src/main/java/io/eventuate/local/cdc/debezium/PollingBasedEventTableChangesToAggregateTopicRelay.java:55-88 | Counts the loop passes among the steps: none exactly when every step is a stop request |
| `Relay.PollsOutcomeCount` | eventuate-local-java-embedded-cdc/src/main/java/io/eventuate/local/cdc/debezium/PollingBasedEventTableChangesToAggregateTopicRelay.java:55-88 | Exactly one cycle outcome is recorded per loop pass, and none for a stop request |
| `Relay.PollsAppend` | eventuate-local-java-embedded-cdc/src/main/java/io/eventuate/local/cdc/debezium/PollingBasedEventTableChangesToAggregateTopicRelay.java:55-88 | Running two series of steps one after the other is running their concatenation: the second starts from the table the first left, and the published events, calls and outcomes follow each other |
| `Relay.PollingRelay.TakeStep` | eventuate-local-java-embedded-cdc/src/main/java/io/eventuate/local/cdc/debezium/PollingBasedEventTableChangesToAggregateTopicRelay.java:55-87 | One turn of the loop: after a pass the relay is still running with the same producer; after a stop it is stopped with a closed producer; the state is the fold one step further |
| `Relay.PollingRelay.Run` | eventuate-local-java-embedded-cdc/src/main/java/io/eventuate/local/cdc/debezium/PollingBasedEventTableChangesToAggregateTopicRelay.java:51-90 | A relay that is not running is left unchanged and takes no step. A running relay takes every step up to and including the first stop request and then stops with its producer closed; with no stop request it stays running; no exception ends the loop. The table, published log, call log and outcomes are those of the passes taken; the future is the start future settled by them, so a pending future is settled by the first pass and a settled one stays |

## Left out

- The background thread and its unsynchronised read of `watcherRunning`. A stop is a step between two loop passes. A pass that is under way when `stop` runs is not modelled.
- Real sleeping and timing. The sleep is a `Sleep(millis)` entry in the call log. A sleep that throws, for example on a negative period, is caught in the source and changes nothing, so the model records the sleep either way.
- Logging.
- The Kafka producer's wire behaviour and bootstrap configuration. The producer is one of never created, open or closed.
- The body of `handleEvent`, and the leadership and attempt-tracking logic of the superclass `EventTableChangesToAggregateTopicRelay`, which is not part of this model. `handleEvent` is an abstract publish that either publishes its event or throws; a call that throws is taken to publish nothing.
- The SQL of `EventPollingDao`, which is not part of this model. The fetch returns every unpublished row in table order; any ordering clause or row limit in the real query is not modelled. A mark that throws is taken to mark no row.
- The checks inside `CdcStartupValidator`, which is not part of this model. Validation is a pass/fail parameter of `Start`.
- `Relay.PollingRelay.Start` models one loop only. In the source, a second start while running launches a second thread. It also replaces the producer without closing the old one. The model keeps a single loop and replaces the future.
- `Relay.PollingRelay.Start` does not model the Kafka producer's constructor throwing. In the source, `watcherRunning` is already true at that point and no thread starts.
- `Relay.PollingRelay.Stop` does not model a `close` that throws. In the source, that exception propagates before `watcherRunning` is cleared.
- Commits by other writers during a pass are a parameter of `RunCycle`. An insert whose id is already taken is rejected, as the table's primary key requires.
- Throwables that are not `Exception`s, such as `OutOfMemoryError` or `AssertionError`, thrown by the fetch, `handleEvent` or the mark. They escape the catch at line 84 and end the thread while `watcherRunning` is still true. If that happens in the first cycle, the future stays pending forever. `Faults` covers only the exceptions the loop catches.
