/**
 * The polling relay itself: the `watcherRunning` flag, the producer handle,
 * the startup future, and the loop that moves pending rows of the EVENTS
 * table to the broker.  The background thread is replaced by an explicit
 * driver that runs cycles and external stop requests one after the other.
 */
module Relay {
  import opened EventTable
  import opened Readiness
  import opened PollingCycle

  /** The producer handle: never created, open, or closed by a stop. */
  datatype Producer = NoProducer | Open | Closed

  /** What happens next between two checks of `watcherRunning`. */
  datatype Step = PollOnce(faults: Faults, inserts: seq<EventToPublish>) | StopRequested

  /** Where the first stop request is in `steps`; `|steps|` when there is none. */
  function FirstStop(steps: seq<Step>): (n: nat)
    ensures n <= |steps|
    ensures forall k :: 0 <= k < n ==> steps[k].PollOnce?
    ensures n < |steps| ==> steps[n].StopRequested?
  {
    if steps == [] || steps[0].StopRequested? then 0 else 1 + FirstStop(steps[1..])
  }

  /**
   * What a series of loop passes leaves behind: the table, and the events
   * published, the calls made and the cycle outcomes, oldest first.
   */
  datatype Trace = Trace(table: seq<Row>, published: seq<EventToPublish>, calls: seq<Call>,
                         outcomes: seq<CycleOutcome>)

  /**
   * The passes of `steps` run one after the other from `table`; a stop
   * request runs no pass.  No row is ever removed, no event changed and no
   * published flag cleared.
   */
  function Polls(table: seq<Row>, steps: seq<Step>, sleepMillis: int): (t: Trace)
    ensures |table| <= |t.table|
    ensures forall i :: 0 <= i < |table| ==> t.table[i].event == table[i].event
    ensures forall i :: 0 <= i < |table| && table[i].published ==> t.table[i].published
    decreases |steps|
  {
    if steps == [] then Trace(table, [], [], [])
    else
      var before := Polls(table, steps[..|steps| - 1], sleepMillis);
      match steps[|steps| - 1]
      case StopRequested => before
      case PollOnce(f, inserts) =>
        var batch := FindEventsToPublish(before.table);
        Trace(TableAfter(before.table, inserts, f), before.published + PublishedIn(batch, f),
              before.calls + CycleCalls(batch, f, sleepMillis), before.outcomes + [Outcome(batch, f)])
  }

  /** The passes of a prefix of `steps` followed by the next step (one unfolding of `Polls`). */
  lemma PollsNext(table: seq<Row>, steps: seq<Step>, k: nat, sleepMillis: int)
    requires k < |steps|
    ensures var before := Polls(table, steps[..k], sleepMillis);
            var batch := FindEventsToPublish(before.table);
            Polls(table, steps[..k + 1], sleepMillis) ==
              match steps[k]
              case StopRequested => before
              case PollOnce(f, inserts) =>
                Trace(TableAfter(before.table, inserts, f), before.published + PublishedIn(batch, f),
                      before.calls + CycleCalls(batch, f, sleepMillis), before.outcomes + [Outcome(batch, f)])
  {
    assert steps[..k + 1][..k] == steps[..k];
  }

  /** Every loop pass keeps the no-loss invariant, so any series of passes does. */
  lemma {:induction false} PollsPreserveNoLoss(baseline: seq<Row>, table: seq<Row>, log: seq<EventToPublish>,
                                               steps: seq<Step>, sleepMillis: int)
    requires EveryMarkedRowPublished(baseline, table, log)
    ensures var t := Polls(table, steps, sleepMillis);
            EveryMarkedRowPublished(baseline, t.table, log + t.published)
    decreases |steps|
  {
    if steps != [] {
      var init := steps[..|steps| - 1];
      PollsPreserveNoLoss(baseline, table, log, init, sleepMillis);
      var before := Polls(table, init, sleepMillis);
      match steps[|steps| - 1]
      case StopRequested =>
      case PollOnce(f, inserts) =>
        var batch := FindEventsToPublish(before.table);
        CyclePreservesNoLoss(baseline, before.table, log + before.published, inserts, f);
        AppendAssoc(log, before.published, PublishedIn(batch, f));
    }
  }

  /** How many of `steps` are loop passes. */
  function PollCount(steps: seq<Step>): (n: nat)
    ensures n <= |steps|
    ensures n == 0 <==> forall k :: 0 <= k < |steps| ==> steps[k].StopRequested?
    decreases |steps|
  {
    if steps == [] then 0
    else
      var init := steps[..|steps| - 1];
      assert forall k :: 0 <= k < |init| ==> init[k] == steps[k];
      PollCount(init) + (if steps[|steps| - 1].PollOnce? then 1 else 0)
  }

  /** Exactly one cycle outcome is recorded per loop pass, and none for a stop request. */
  lemma {:induction false} PollsOutcomeCount(table: seq<Row>, steps: seq<Step>, sleepMillis: int)
    ensures |Polls(table, steps, sleepMillis).outcomes| == PollCount(steps)
    decreases |steps|
  {
    if steps != [] {
      PollsOutcomeCount(table, steps[..|steps| - 1], sleepMillis);
    }
  }

  /**
   * Running the passes of `a` and then those of `b` is running the passes of
   * `a + b`: `b` starts from the table `a` left, and the published events,
   * calls and outcomes of the two parts follow each other.
   */
  lemma {:induction false} PollsAppend(table: seq<Row>, a: seq<Step>, b: seq<Step>, sleepMillis: int)
    ensures var p := Polls(table, a, sleepMillis);
            var q := Polls(p.table, b, sleepMillis);
            Polls(table, a + b, sleepMillis) ==
              Trace(q.table, p.published + q.published, p.calls + q.calls, p.outcomes + q.outcomes)
    decreases |b|
  {
    var p := Polls(table, a, sleepMillis);
    if b == [] {
      assert a + b == a;
    } else {
      var init := b[..|b| - 1];
      PollsAppend(table, a, init, sleepMillis);
      assert (a + b)[..|a + b| - 1] == a + init;
      assert (a + b)[|a + b| - 1] == b[|b| - 1];
      var before := Polls(p.table, init, sleepMillis);
      match b[|b| - 1]
      case StopRequested =>
      case PollOnce(f, inserts) =>
        var batch := FindEventsToPublish(before.table);
        AppendAssoc(p.published, before.published, PublishedIn(batch, f));
        AppendAssoc(p.calls, before.calls, CycleCalls(batch, f, sleepMillis));
        AppendAssoc(p.outcomes, before.outcomes, [Outcome(batch, f)]);
    }
  }

  class PollingRelay {
    /** How long an idle cycle sleeps (a Java `int`, not checked for sign). */
    const requestPeriodInMilliseconds: int
    var watcherRunning: bool
    var producer: Producer
    /** The future of the latest start; `None` before the first start. */
    var future: Option<Future>
    /** The EVENTS table. */
    var table: seq<Row>
    /** Every event `handleEvent` published, in publish order. */
    var publishedLog: seq<EventToPublish>

    /** Every call the loop made, in order. */
    ghost var calls: seq<Call>
    /** How each cycle since the latest start ended. */
    ghost var outcomes: seq<CycleOutcome>
    /** The table as it was when the relay was created. */
    ghost const baseline: seq<Row>

    ghost predicate Valid()
      reads this
    {
      (watcherRunning ==> producer == Open && future.Some?) &&
      (future.Some? ==> future.value == SettleAll(Pending, outcomes)) &&
      EveryMarkedRowPublished(baseline, table, publishedLog)
    }

    /** A relay over `eventTable`; nothing runs until it is started. */
    constructor (eventTable: seq<Row>, requestPeriodInMilliseconds: int)
      ensures Valid()
      ensures !watcherRunning && producer == NoProducer && future == None
      ensures table == eventTable && publishedLog == [] && calls == [] && outcomes == []
      ensures this.requestPeriodInMilliseconds == requestPeriodInMilliseconds
    {
      this.requestPeriodInMilliseconds := requestPeriodInMilliseconds;
      watcherRunning := false;
      producer := NoProducer;
      future := None;
      table := eventTable;
      publishedLog := [];
      calls := [];
      outcomes := [];
      baseline := eventTable;
    }

    /**
     * `startCapturingChanges`: validates the environment first; if that
     * fails, nothing changes and no future is handed out.  Otherwise it sets
     * `watcherRunning`, creates a fresh pending future and opens a producer.
     */
    method Start(environmentValid: bool) returns (started: bool)
      requires Valid()
      modifies this
      ensures Valid()
      ensures started == environmentValid
      ensures !started ==> unchanged(this)
      ensures started ==> watcherRunning && producer == Open && future == Some(Pending) && outcomes == []
      ensures table == old(table) && publishedLog == old(publishedLog) && calls == old(calls)
    {
      if !environmentValid {
        return false;
      }
      watcherRunning := true;
      future := Some(Pending);
      outcomes := [];
      producer := Open;
      started := true;
    }

    /**
     * `stopCapturingChanges`: closes the producer if one was ever created
     * and clears `watcherRunning`; safe before any start, and nothing else
     * changes.
     */
    method Stop()
      requires Valid()
      modifies this
      ensures Valid()
      ensures !watcherRunning
      ensures producer == if old(producer) == NoProducer then NoProducer else Closed
      ensures future == old(future) && outcomes == old(outcomes)
      ensures table == old(table) && publishedLog == old(publishedLog) && calls == old(calls)
    {
      if producer != NoProducer {
        producer := Closed;
      }
      watcherRunning := false;
    }

    /**
     * The end of a cycle's `try` block: `complete(null)` after a normal
     * pass, `completeExceptionally` from the `catch` after one that threw.
     */
    method SettleFuture(o: CycleOutcome)
      requires future.Some? && future.value == SettleAll(Pending, outcomes)
      modifies this`future, this`outcomes, this`calls
      ensures future == Some(Settle(old(future).value, o))
      ensures future.value == SettleAll(Pending, outcomes)
      ensures outcomes == old(outcomes) + [o]
      ensures calls == old(calls) + [match o case Completed => CompleteOk case Threw(fault) => CompleteWithError(fault)]
    {
      SettleAllSnoc(Pending, outcomes, o);
      match o {
        case Completed =>
          calls := calls + [CompleteOk];
          future := Some(Complete(future.value));
        case Threw(fault) =>
          calls := calls + [CompleteWithError(fault)];
          future := Some(CompleteExceptionally(future.value, fault));
      }
      outcomes := outcomes + [o];
    }

    /**
     * The `forEach` over the batch: hands each event to `handleEvent`, in
     * batch order, until one call throws.
     */
    method HandleEach(batch: seq<EventToPublish>, faults: Faults) returns (threw: bool)
      requires !faults.fetchFails
      modifies this`publishedLog, this`calls
      ensures threw == HandleFails(batch, faults)
      ensures publishedLog == old(publishedLog) + PublishedIn(batch, faults)
      ensures calls == old(calls) + HandleCalls(batch[..Attempted(batch, faults)])
    {
      var i := 0;
      while i < |batch|
        invariant 0 <= i <= |batch|
        invariant faults.handleFailsAt.Some? ==> faults.handleFailsAt.value >= i
        invariant publishedLog == old(publishedLog) + batch[..i]
        invariant calls == old(calls) + HandleCalls(batch[..i])
      {
        calls := calls + [HandleEvent(batch[i])];
        assert batch[..i + 1][..i] == batch[..i];
        if faults.handleFailsAt == Some(i) {
          return true;
        }
        publishedLog := publishedLog + [batch[i]];
        i := i + 1;
      }
      assert batch[..i] == batch;
      return false;
    }

    /**
     * What follows a `forEach` that returned: mark the batch's ids if it is
     * non-empty, settle the future, and sleep if the batch was empty.  A
     * mark that throws fails the future instead.
     */
    method MarkAndSettle(batch: seq<EventToPublish>, faults: Faults)
      requires !faults.fetchFails && !HandleFails(batch, faults)
      requires future.Some? && future.value == SettleAll(Pending, outcomes)
      modifies this`table, this`calls, this`future, this`outcomes
      ensures table == if batch != [] && !faults.markFails
                       then MarkEventsAsPublished(old(table), EventIds(batch)) else old(table)
      ensures calls == old(calls) + CallsAfterForEach(batch, faults, requestPeriodInMilliseconds)
      ensures outcomes == old(outcomes) + [Outcome(batch, faults)]
      ensures future == Some(Settle(old(future).value, Outcome(batch, faults)))
      ensures future.value == SettleAll(Pending, outcomes)
    {
      if batch != [] {
        calls := calls + [MarkPublished(EventIds(batch))];
        if faults.markFails {
          SettleFuture(Threw(MarkFailed));
          return;
        }
        table := MarkEventsAsPublished(table, EventIds(batch));
        SettleFuture(Completed);
      } else {
        SettleFuture(Completed);
        // A sleep that throws is caught and logged; the loop goes on either way.
        calls := calls + [Sleep(requestPeriodInMilliseconds)];
      }
    }

    /**
     * The rest of a cycle once the fetch returned `batch`: the `forEach`
     * over the batch, then the mark and the settlement.  A `handleEvent`
     * call that throws ends the pass there and fails the future.
     */
    method PublishBatch(batch: seq<EventToPublish>, faults: Faults)
      requires !faults.fetchFails
      requires future.Some? && future.value == SettleAll(Pending, outcomes)
      modifies this`table, this`publishedLog, this`calls, this`future, this`outcomes
      ensures table == if MarkCalled(batch, faults) && !faults.markFails
                       then MarkEventsAsPublished(old(table), EventIds(batch)) else old(table)
      ensures publishedLog == old(publishedLog) + PublishedIn(batch, faults)
      ensures calls == old(calls) + CallsAfterFetch(batch, faults, requestPeriodInMilliseconds)
      ensures outcomes == old(outcomes) + [Outcome(batch, faults)]
      ensures future == Some(Settle(old(future).value, Outcome(batch, faults)))
      ensures future.value == SettleAll(Pending, outcomes)
    {
      var threw := HandleEach(batch, faults);
      ghost var handles := HandleCalls(batch[..Attempted(batch, faults)]);
      if threw {
        var k := faults.handleFailsAt.value;
        SettleFuture(Threw(HandleFailed(batch[k].eventId)));
      } else {
        MarkAndSettle(batch, faults);
      }
      AppendAssoc(old(calls), handles, CallsAfterForEach(batch, faults, requestPeriodInMilliseconds));
    }

    /**
     * One pass of the polling loop, while `inserts` are committed by other
     * writers: fetch the pending rows, then publish, mark and settle as
     * `PublishBatch` does.  A fetch that throws fails the future and ends
     * the pass.
     */
    method RunCycle(faults: Faults, inserts: seq<EventToPublish>)
      requires Valid() && watcherRunning
      modifies this
      ensures Valid() && watcherRunning && producer == old(producer)
      ensures table == TableAfter(old(table), inserts, faults)
      ensures publishedLog == old(publishedLog) + PublishedIn(FindEventsToPublish(old(table)), faults)
      ensures calls == old(calls) + CycleCalls(FindEventsToPublish(old(table)), faults, requestPeriodInMilliseconds)
      ensures outcomes == old(outcomes) + [Outcome(FindEventsToPublish(old(table)), faults)]
      ensures future == Some(Settle(old(future).value, Outcome(FindEventsToPublish(old(table)), faults)))
    {
      CyclePreservesNoLoss(baseline, table, publishedLog, inserts, faults);
      var admitted := Admit(table, inserts);
      calls := calls + [FindEvents];
      if faults.fetchFails {
        table := table + NewRows(admitted);
        SettleFuture(Threw(FetchFailed));
        AppendAssoc(old(calls), [FindEvents], [CompleteWithError(FetchFailed)]);
        return;
      }
      var batch := FindEventsToPublish(table);
      // Other writers commit their rows while the batch is being published.
      table := table + NewRows(admitted);
      PublishBatch(batch, faults);
      AppendAssoc(old(calls), [FindEvents], CallsAfterFetch(batch, faults, requestPeriodInMilliseconds));
      assert table == TableAfter(old(table), inserts, faults);
    }

    /**
     * The relay's state is that of the passes among the first `n` steps,
     * run from the given table, logs and future.
     */
    ghost predicate Replays(table0: seq<Row>, log0: seq<EventToPublish>, calls0: seq<Call>,
                            outcomes0: seq<CycleOutcome>, future0: Option<Future>, steps: seq<Step>, n: nat)
      requires n <= |steps|
      reads this
    {
      var t := Polls(table0, steps[..n], requestPeriodInMilliseconds);
      table == t.table && publishedLog == log0 + t.published && calls == calls0 + t.calls &&
      outcomes == outcomes0 + t.outcomes &&
      (future0.Some? ==> future.Some? && future.value == SettleAll(future0.value, t.outcomes))
    }

    /**
     * One turn of the loop while `watcherRunning` holds: a pass of the loop
     * body, or an external stop landing before the next check of the flag.
     */
    method TakeStep(ghost table0: seq<Row>, ghost log0: seq<EventToPublish>, ghost calls0: seq<Call>,
                    ghost outcomes0: seq<CycleOutcome>, ghost future0: Option<Future>,
                    steps: seq<Step>, taken: nat)
      requires Valid() && watcherRunning && taken < |steps|
      requires Replays(table0, log0, calls0, outcomes0, future0, steps, taken)
      modifies this
      ensures Valid() && Replays(table0, log0, calls0, outcomes0, future0, steps, taken + 1)
      ensures watcherRunning <==> steps[taken].PollOnce?
      ensures producer == if watcherRunning then old(producer) else Closed
    {
      ghost var before := Polls(table0, steps[..taken], requestPeriodInMilliseconds);
      PollsNext(table0, steps, taken, requestPeriodInMilliseconds);
      match steps[taken] {
        case PollOnce(faults, inserts) =>
          ghost var batch := FindEventsToPublish(table);
          ghost var o := Outcome(batch, faults);
          RunCycle(faults, inserts);
          AppendAssoc(log0, before.published, PublishedIn(batch, faults));
          AppendAssoc(calls0, before.calls, CycleCalls(batch, faults, requestPeriodInMilliseconds));
          AppendAssoc(outcomes0, before.outcomes, [o]);
          if future0.Some? {
            SettleAllSnoc(future0.value, before.outcomes, o);
          }
        case StopRequested =>
          Stop();
      }
    }

    /**
     * The thread's `run`: `while (watcherRunning)`, take the next step.
     * Exceptions never end the loop; only a stop does, so a running relay
     * takes every step up to and including the first stop request.  The new
     * state is that of the passes among the steps taken.
     */
    method Run(steps: seq<Step>) returns (taken: nat)
      requires Valid()
      modifies this
      ensures Valid() && taken <= |steps|
      ensures !old(watcherRunning) ==> taken == 0 && !watcherRunning
      ensures !old(watcherRunning) ==> unchanged(this)
      ensures old(watcherRunning) ==>
                taken == (if FirstStop(steps) < |steps| then FirstStop(steps) + 1 else |steps|)
      ensures old(watcherRunning) ==> (watcherRunning <==> FirstStop(steps) == |steps|)
      ensures old(watcherRunning) && !watcherRunning ==> producer == Closed
      ensures watcherRunning ==> producer == old(producer)
      ensures var t := Polls(old(table), steps[..taken], requestPeriodInMilliseconds);
              table == t.table && publishedLog == old(publishedLog) + t.published &&
              calls == old(calls) + t.calls && outcomes == old(outcomes) + t.outcomes
      ensures old(future).Some? ==>
                future.Some? &&
                future.value == SettleAll(old(future).value, Polls(old(table), steps[..taken], requestPeriodInMilliseconds).outcomes)
      ensures old(future) == Some(Pending) ==>
                (future == Some(Pending) <==> !old(watcherRunning) || FirstStop(steps) == 0)
      ensures old(future).Some? && old(future).value != Pending ==> future == old(future)
    {
      taken := 0;
      assert steps[..0] == [];
      while taken < |steps| && watcherRunning
        invariant Valid() && taken <= |steps|
        invariant !old(watcherRunning) ==> taken == 0 && !watcherRunning
        invariant !old(watcherRunning) ==> unchanged(this)
        invariant watcherRunning ==> old(watcherRunning) && taken <= FirstStop(steps)
        invariant old(watcherRunning) && !watcherRunning ==> taken == FirstStop(steps) + 1
        invariant old(watcherRunning) && !watcherRunning ==> producer == Closed
        invariant watcherRunning ==> producer == old(producer)
        invariant Replays(old(table), old(publishedLog), old(calls), old(outcomes), old(future), steps, taken)
        decreases |steps| - taken
      {
        TakeStep(old(table), old(publishedLog), old(calls), old(outcomes), old(future), steps, taken);
        taken := taken + 1;
      }
      ghost var t := Polls(old(table), steps[..taken], requestPeriodInMilliseconds);
      if old(future) == Some(Pending) {
        PollsOutcomeCount(old(table), steps[..taken], requestPeriodInMilliseconds);
        PendingIffNoCycle(t.outcomes);
        if old(watcherRunning) && FirstStop(steps) > 0 {
          assert steps[..taken][0] == steps[0];
        }
      }
      if old(future).Some? && old(future).value != Pending {
        SettledStays(old(future).value, t.outcomes);
      }
    }
  }
}
