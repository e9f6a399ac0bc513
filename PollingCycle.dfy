/**
 * One pass of the body of the polling loop `while (watcherRunning) { ... }`,
 * as a specification on values: the calls it makes (to the DAO, to
 * `handleEvent`, to the startup future, to `Thread.sleep`), how it ends, the
 * table it leaves behind and the events it publishes.  The exceptions the
 * collaborators may throw are given by a `Faults` value.
 */
module PollingCycle {
  import opened EventTable
  import opened Readiness

  datatype Option<T> = None | Some(value: T)

  /**
   * Which collaborator throws during a cycle: the fetch, the `handleEvent`
   * call for the batch item at a given index, or the mark.
   */
  datatype Faults = Faults(fetchFails: bool, handleFailsAt: Option<nat>, markFails: bool)

  /** The calls a cycle makes, in the order it makes them. */
  datatype Call =
    | FindEvents
    | HandleEvent(event: EventToPublish)
    | MarkPublished(ids: seq<nat>)
    | CompleteOk
    | CompleteWithError(fault: Fault)
    | Sleep(millis: int)

  /** The fetch succeeded and `handleEvent` throws on an item of the batch. */
  predicate HandleFails(batch: seq<EventToPublish>, f: Faults)
  {
    !f.fetchFails && f.handleFailsAt.Some? && f.handleFailsAt.value < |batch|
  }

  /** How many times `handleEvent` is called, the throwing call included. */
  function Attempted(batch: seq<EventToPublish>, f: Faults): (n: nat)
    ensures n <= |batch|
    ensures n == 0 <==> f.fetchFails || batch == []
  {
    if f.fetchFails then 0
    else if HandleFails(batch, f) then f.handleFailsAt.value + 1
    else |batch|
  }

  /** The events `handleEvent` published without throwing, in publish order. */
  function PublishedIn(batch: seq<EventToPublish>, f: Faults): (published: seq<EventToPublish>)
    ensures published <= batch[..Attempted(batch, f)]
    ensures |published| + (if HandleFails(batch, f) then 1 else 0) == Attempted(batch, f)
  {
    if f.fetchFails then []
    else if HandleFails(batch, f) then batch[..f.handleFailsAt.value]
    else batch
  }

  /** `markEventsAsPublished` is reached: the batch is non-empty and was handled in full. */
  predicate MarkCalled(batch: seq<EventToPublish>, f: Faults)
  {
    !f.fetchFails && !HandleFails(batch, f) && batch != []
  }

  /**
   * How the cycle ends: the first exception thrown, or normal completion.
   * The id in `HandleFailed` names the failing item for the model's sake;
   * the exception the future is completed with is only known to wrap the
   * cause's message.
   */
  function Outcome(batch: seq<EventToPublish>, f: Faults): (o: CycleOutcome)
    ensures o == Threw(FetchFailed) <==> f.fetchFails
    ensures o.Completed? <==> !f.fetchFails && !HandleFails(batch, f) && (batch == [] || !f.markFails)
    ensures o == Threw(MarkFailed) <==> MarkCalled(batch, f) && f.markFails
    ensures o.Threw? && o.fault.HandleFailed? ==>
              HandleFails(batch, f) && o.fault.eventId == batch[Attempted(batch, f) - 1].eventId
  {
    if f.fetchFails then Threw(FetchFailed)
    else if HandleFails(batch, f) then Threw(HandleFailed(batch[f.handleFailsAt.value].eventId))
    else if batch != [] && f.markFails then Threw(MarkFailed)
    else Completed
  }

  /** One `handleEvent` call per event, in order (the `forEach`). */
  function HandleCalls(events: seq<EventToPublish>): (calls: seq<Call>)
    ensures |calls| == |events|
  {
    if events == [] then [] else HandleCalls(events[..|events| - 1]) + [HandleEvent(events[|events| - 1])]
  }

  /** The calls that close a cycle: settle the future, then sleep if the batch was empty. */
  function ClosingCalls(batch: seq<EventToPublish>, f: Faults, sleepMillis: int): (calls: seq<Call>)
  {
    match Outcome(batch, f)
    case Threw(fault) => [CompleteWithError(fault)]
    case Completed => [CompleteOk] + (if batch == [] then [Sleep(sleepMillis)] else [])
  }

  /**
   * The calls after the `forEach`: the closing calls alone if a
   * `handleEvent` call threw; otherwise the mark (for a non-empty batch)
   * followed by the closing calls.  A sleep that throws is swallowed, so it
   * ends the cycle like one that returns.
   */
  function CallsAfterForEach(batch: seq<EventToPublish>, f: Faults, sleepMillis: int): (calls: seq<Call>)
  {
    if HandleFails(batch, f) then ClosingCalls(batch, f, sleepMillis)
    else (if batch == [] then [] else [MarkPublished(EventIds(batch))]) + ClosingCalls(batch, f, sleepMillis)
  }

  /** The calls a cycle makes once its fetch returned `batch`. */
  function CallsAfterFetch(batch: seq<EventToPublish>, f: Faults, sleepMillis: int): (calls: seq<Call>)
  {
    HandleCalls(batch[..Attempted(batch, f)]) + CallsAfterForEach(batch, f, sleepMillis)
  }

  /** The calls of one cycle whose fetch returns `batch` when it does not throw. */
  function CycleCalls(batch: seq<EventToPublish>, f: Faults, sleepMillis: int): (calls: seq<Call>)
    ensures |calls| == 2 + Attempted(batch, f) + (if MarkCalled(batch, f) then 1 else 0)
                         + (if !f.fetchFails && batch == [] then 1 else 0)
    ensures calls[0] == FindEvents
  {
    [FindEvents] + (if f.fetchFails then [CompleteWithError(FetchFailed)] else CallsAfterFetch(batch, f, sleepMillis))
  }

  /** The events passed to `handleEvent` in a series of calls, in call order. */
  function Handled(calls: seq<Call>): (events: seq<EventToPublish>)
  {
    if calls == [] then []
    else (if calls[0].HandleEvent? then [calls[0].event] else []) + Handled(calls[1..])
  }

  /**
   * The EVENTS table after a cycle that started from `table`, while other
   * writers committed `inserts`: the committed rows are appended, and the
   * batch's ids are marked only when the mark call returned normally.
   */
  function TableAfter(table: seq<Row>, inserts: seq<EventToPublish>, f: Faults): (after: seq<Row>)
    ensures |after| >= |table|
    ensures forall i :: 0 <= i < |table| ==> after[i].event == table[i].event
    ensures forall i :: 0 <= i < |table| && table[i].published ==> after[i].published
    ensures after[|table|..] == NewRows(Admit(table, inserts))
  {
    var batch := FindEventsToPublish(table);
    var added := NewRows(Admit(table, inserts));
    var grown := table + added;
    if MarkCalled(batch, f) && !f.markFails then
      MarkAppend(table, added, EventIds(batch));
      CommittedRowsUnmarked(table, inserts);
      MarkEventsAsPublished(grown, EventIds(batch))
    else
      assert grown[|table|..] == added;
      grown
  }

  /**
   * No event is lost: the rows of `baseline` (the table when the relay was
   * created) are all still there, and every row marked published since
   * then had its event published first.
   */
  ghost predicate EveryMarkedRowPublished(baseline: seq<Row>, table: seq<Row>, log: seq<EventToPublish>)
  {
    |baseline| <= |table| &&
    (forall i :: 0 <= i < |baseline| ==> table[i].event == baseline[i].event) &&
    forall i :: 0 <= i < |table| && table[i].published ==>
      (i < |baseline| && baseline[i].published) || table[i].event in log
  }

  // ----- Lemmas -----

  lemma {:induction false} HandledAppend(a: seq<Call>, b: seq<Call>)
    ensures Handled(a + b) == Handled(a) + Handled(b)
  {
    if a == [] {
      assert a + b == b;
    } else {
      var head := if a[0].HandleEvent? then [a[0].event] else [];
      assert (a + b)[0] == a[0];
      assert (a + b)[1..] == a[1..] + b;
      calc {
        Handled(a + b);
        head + Handled(a[1..] + b);
        { HandledAppend(a[1..], b); }
        head + (Handled(a[1..]) + Handled(b));
        (head + Handled(a[1..])) + Handled(b);
      }
    }
  }

  /** The k-th call of the `forEach` hands the k-th event to `handleEvent`. */
  lemma {:induction false} HandleCallsAt(events: seq<EventToPublish>, k: nat)
    requires k < |events|
    ensures HandleCalls(events)[k] == HandleEvent(events[k])
  {
    if k < |events| - 1 {
      HandleCallsAt(events[..|events| - 1], k);
    }
  }

  lemma {:induction false} HandledOfHandleCalls(events: seq<EventToPublish>)
    ensures Handled(HandleCalls(events)) == events
  {
    if events != [] {
      var init := events[..|events| - 1];
      var last := events[|events| - 1];
      HandledOfHandleCalls(init);
      HandledAppend(HandleCalls(init), [HandleEvent(last)]);
      assert Handled([HandleEvent(last)]) == [last];
      assert init + [last] == events;
    }
  }

  /** Only `HandleEvent` entries contribute to `Handled`. */
  lemma {:induction false} HandledOfOthers(calls: seq<Call>)
    requires forall j :: 0 <= j < |calls| ==> !calls[j].HandleEvent?
    ensures Handled(calls) == []
  {
    if calls != [] {
      assert forall j :: 0 <= j < |calls[1..]| ==> calls[1..][j] == calls[j + 1];
      HandledOfOthers(calls[1..]);
    }
  }

  lemma AppendAssoc<T>(a: seq<T>, b: seq<T>, c: seq<T>)
    ensures a + b + c == a + (b + c)
  {
  }

  /**
   * What follows the `forEach` of a cycle whose fetch returned: no
   * `handleEvent` call; the mark, first and only when it is reached; and a
   * sleep exactly when the batch was empty, after a successful settlement.
   */
  lemma ForEachTail(batch: seq<EventToPublish>, f: Faults, sleepMillis: int)
    requires !f.fetchFails
    ensures var tail := CallsAfterForEach(batch, f, sleepMillis);
            (forall j :: 0 <= j < |tail| ==> !tail[j].HandleEvent?) &&
            (forall j :: 0 <= j < |tail| && tail[j].MarkPublished? ==> j == 0 && MarkCalled(batch, f)) &&
            (MarkCalled(batch, f) ==> tail[0] == MarkPublished(EventIds(batch))) &&
            ((exists j :: 0 <= j < |tail| && tail[j].Sleep?) <==> batch == []) &&
            (batch == [] ==> tail == [CompleteOk, Sleep(sleepMillis)] && Outcome(batch, f) == Completed)
  {
    var tail := CallsAfterForEach(batch, f, sleepMillis);
    if batch == [] {
      assert tail[1].Sleep?;
    } else {
      assert forall j :: 0 <= j < |tail| ==> !tail[j].Sleep?;
    }
  }

  /** The j-th call of a cycle whose fetch returned. */
  lemma CycleCallsAt(batch: seq<EventToPublish>, f: Faults, sleepMillis: int, j: nat)
    requires !f.fetchFails && j < |CycleCalls(batch, f, sleepMillis)|
    ensures var n := Attempted(batch, f);
            CycleCalls(batch, f, sleepMillis)[j] ==
              if j == 0 then FindEvents
              else if j <= n then HandleEvent(batch[j - 1])
              else CallsAfterForEach(batch, f, sleepMillis)[j - 1 - n]
  {
    var n := Attempted(batch, f);
    if 0 < j <= n {
      HandleCallsAt(batch[..n], j - 1);
    }
  }

  /**
   * One cycle calls `handleEvent` on the fetched events, once each, in the
   * order the fetch returned them; it stops at the call that throws, and
   * without a throwing call the whole batch is handled.
   */
  lemma HandlesFollowFetchOrder(batch: seq<EventToPublish>, f: Faults, sleepMillis: int)
    ensures Handled(CycleCalls(batch, f, sleepMillis)) == batch[..Attempted(batch, f)]
    ensures !f.fetchFails && !HandleFails(batch, f) ==> Handled(CycleCalls(batch, f, sleepMillis)) == batch
    ensures PublishedIn(batch, f) <= Handled(CycleCalls(batch, f, sleepMillis))
  {
    HandledOfOthers([FindEvents]);
    if f.fetchFails {
      HandledOfOthers([CompleteWithError(FetchFailed)]);
      HandledAppend([FindEvents], [CompleteWithError(FetchFailed)]);
    } else {
      var handles := HandleCalls(batch[..Attempted(batch, f)]);
      var tail := CallsAfterForEach(batch, f, sleepMillis);
      ForEachTail(batch, f, sleepMillis);
      HandledOfOthers(tail);
      HandledOfHandleCalls(batch[..Attempted(batch, f)]);
      HandledAppend(handles, tail);
      HandledAppend([FindEvents], handles + tail);
      if !HandleFails(batch, f) {
        assert batch[..Attempted(batch, f)] == batch;
      }
    }
  }

  lemma PrefixOfAppend<T>(a: seq<T>, b: seq<T>)
    ensures (a + b)[..|a|] == a
  {
  }

  /** A mark call can only sit right after the last `handleEvent` of a fully handled, non-empty batch. */
  lemma MarkPosition(batch: seq<EventToPublish>, f: Faults, sleepMillis: int, j: nat)
    requires j < |CycleCalls(batch, f, sleepMillis)| && CycleCalls(batch, f, sleepMillis)[j].MarkPublished?
    ensures MarkCalled(batch, f) && j == |batch| + 1
    ensures CycleCalls(batch, f, sleepMillis)[j] == MarkPublished(EventIds(batch))
  {
    assert !f.fetchFails;
    ForEachTail(batch, f, sleepMillis);
    CycleCallsAt(batch, f, sleepMillis, j);
  }

  /**
   * `markEventsAsPublished` is called at most once per cycle, only for a
   * non-empty batch that was handled in full, with the batch's ids in batch
   * order, and only after every event of the batch was handled.
   */
  lemma MarkAfterWholeBatch(batch: seq<EventToPublish>, f: Faults, sleepMillis: int, j: nat)
    requires j < |CycleCalls(batch, f, sleepMillis)| && CycleCalls(batch, f, sleepMillis)[j].MarkPublished?
    ensures MarkCalled(batch, f) && batch != []
    ensures CycleCalls(batch, f, sleepMillis)[j] == MarkPublished(EventIds(batch))
    ensures Handled(CycleCalls(batch, f, sleepMillis)[..j]) == batch
    ensures forall j' :: 0 <= j' < |CycleCalls(batch, f, sleepMillis)| && CycleCalls(batch, f, sleepMillis)[j'].MarkPublished? ==> j' == j
  {
    var calls := CycleCalls(batch, f, sleepMillis);
    MarkPosition(batch, f, sleepMillis, j);
    forall j' | 0 <= j' < |calls| && calls[j'].MarkPublished?
      ensures j' == j
    {
      MarkPosition(batch, f, sleepMillis, j');
    }
    assert batch[..Attempted(batch, f)] == batch;
    var handles := HandleCalls(batch);
    var tail := CallsAfterForEach(batch, f, sleepMillis);
    AppendAssoc([FindEvents], handles, tail);
    PrefixOfAppend([FindEvents] + handles, tail);
    HandledAppend([FindEvents], handles);
    HandledOfOthers([FindEvents]);
    HandledOfHandleCalls(batch);
  }

  /** Whenever the batch is non-empty and fully handled, the mark call is made. */
  lemma MarkIssuedForHandledBatch(batch: seq<EventToPublish>, f: Faults, sleepMillis: int)
    requires MarkCalled(batch, f)
    ensures exists j :: 0 <= j < |CycleCalls(batch, f, sleepMillis)| &&
                        CycleCalls(batch, f, sleepMillis)[j] == MarkPublished(EventIds(batch))
  {
    var n := Attempted(batch, f);
    ForEachTail(batch, f, sleepMillis);
    CycleCallsAt(batch, f, sleepMillis, n + 1);
  }

  /**
   * The loop sleeps exactly in the cycles whose fetch returned an empty
   * batch; such a cycle handles nothing, marks nothing, and settles the
   * future with success before sleeping.
   */
  lemma SleepsOnlyWhenEmpty(batch: seq<EventToPublish>, f: Faults, sleepMillis: int)
    ensures (exists j :: 0 <= j < |CycleCalls(batch, f, sleepMillis)| && CycleCalls(batch, f, sleepMillis)[j].Sleep?)
            <==> !f.fetchFails && batch == []
    ensures !f.fetchFails && batch == [] ==>
            CycleCalls(batch, f, sleepMillis) == [FindEvents, CompleteOk, Sleep(sleepMillis)] &&
            Outcome(batch, f) == Completed
  {
    var calls := CycleCalls(batch, f, sleepMillis);
    if !f.fetchFails {
      var n := Attempted(batch, f);
      var tail := CallsAfterForEach(batch, f, sleepMillis);
      ForEachTail(batch, f, sleepMillis);
      if batch == [] {
        assert calls == [FindEvents] + tail;
        assert calls[2].Sleep?;
      } else {
        forall j | 0 <= j < |calls|
          ensures !calls[j].Sleep?
        {
          CycleCallsAt(batch, f, sleepMillis, j);
          if j > n {
            assert !tail[j - 1 - n].Sleep?;
          }
        }
      }
    } else {
      assert forall j :: 0 <= j < |calls| ==> !calls[j].Sleep?;
    }
  }

  /** Every id in the found batch belongs to a row of the table. */
  lemma BatchIdsInTable(table: seq<Row>)
    ensures forall id :: id in EventIds(FindEventsToPublish(table)) ==> id in IdSet(table)
  {
    var batch := FindEventsToPublish(table);
    forall id | id in EventIds(batch)
      ensures id in IdSet(table)
    {
      var k :| 0 <= k < |batch| && EventIds(batch)[k] == id;
      FindIsUnpublished(table, batch[k]);
      var i :| 0 <= i < |table| && !table[i].published && table[i].event == batch[k];
      assert table[i] in table;
    }
  }

  /** Rows committed during a cycle are never marked by it. */
  lemma CommittedRowsUnmarked(table: seq<Row>, inserts: seq<EventToPublish>)
    ensures MarkEventsAsPublished(NewRows(Admit(table, inserts)), EventIds(FindEventsToPublish(table)))
            == NewRows(Admit(table, inserts))
  {
    var added := NewRows(Admit(table, inserts));
    BatchIdsInTable(table);
    MarkOthersUntouched(added, EventIds(FindEventsToPublish(table)));
  }

  /**
   * At-least-once: a cycle that throws marks nothing, so the next fetch
   * returns the same pending events first, in the same order, followed by
   * the rows committed meanwhile.
   */
  lemma FailedCycleRepublishes(table: seq<Row>, inserts: seq<EventToPublish>, f: Faults)
    requires Outcome(FindEventsToPublish(table), f).Threw?
    ensures TableAfter(table, inserts, f) == table + NewRows(Admit(table, inserts))
    ensures FindEventsToPublish(TableAfter(table, inserts, f)) == FindEventsToPublish(table) + Admit(table, inserts)
  {
    var added := Admit(table, inserts);
    FindAppend(table, NewRows(added));
    FindNewRows(added);
  }

  /**
   * A cycle that runs through leaves no row of its batch pending: the next
   * fetch returns only the rows committed while it ran.  This rests on the
   * fetch returning every pending row: a query with a row limit would leave
   * the rows beyond the limit pending.
   */
  lemma CompletedCycleDrains(table: seq<Row>, inserts: seq<EventToPublish>, f: Faults)
    requires Outcome(FindEventsToPublish(table), f) == Completed
    ensures FindEventsToPublish(TableAfter(table, inserts, f)) == Admit(table, inserts)
  {
    var batch := FindEventsToPublish(table);
    var added := Admit(table, inserts);
    FindNewRows(added);
    if batch == [] {
      FindAppend(table, NewRows(added));
    } else {
      var ids := EventIds(batch);
      MarkAppend(table, NewRows(added), ids);
      CommittedRowsUnmarked(table, inserts);
      FindAppend(MarkEventsAsPublished(table, ids), NewRows(added));
      MarkBatchDrains(table);
    }
  }

  /** A cycle keeps the no-loss invariant: it marks only rows whose events it published. */
  lemma CyclePreservesNoLoss(baseline: seq<Row>, table: seq<Row>, log: seq<EventToPublish>,
                             inserts: seq<EventToPublish>, f: Faults)
    requires EveryMarkedRowPublished(baseline, table, log)
    ensures EveryMarkedRowPublished(baseline, TableAfter(table, inserts, f),
                                    log + PublishedIn(FindEventsToPublish(table), f))
  {
    var batch := FindEventsToPublish(table);
    var added := Admit(table, inserts);
    var grown := table + NewRows(added);
    var after := TableAfter(table, inserts, f);
    var log' := log + PublishedIn(batch, f);
    forall i | 0 <= i < |after| && after[i].published
      ensures (i < |baseline| && baseline[i].published) || after[i].event in log'
    {
      if grown[i].published {
        assert i < |table| && grown[i] == table[i];
      } else {
        assert MarkCalled(batch, f) && !f.markFails;
        assert grown[i].event.eventId in EventIds(batch);
        BatchIdsInTable(table);
        assert i < |table|;
        assert grown[i] == table[i];
        FindIsUnpublished(table, table[i].event);
        assert PublishedIn(batch, f) == batch;
      }
    }
  }
}
