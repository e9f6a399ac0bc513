/**
 * The startup future returned by `startCapturingChanges`: a one-shot
 * completion that the polling loop settles at the end of every cycle, with
 * success after a cycle that ran through and exceptionally after one that
 * threw.  Only the first settlement sticks, as with `CompletableFuture`.
 */
module Readiness {

  /** Where in a cycle the exception came from. */
  datatype Fault = FetchFailed | HandleFailed(eventId: nat) | MarkFailed

  /** The observable state of the future. */
  datatype Future = Pending | Succeeded | Failed(cause: Fault)

  /** How one pass of the polling loop ended. */
  datatype CycleOutcome = Completed | Threw(fault: Fault)

  /** `complete(null)`: settles a pending future with success; a no-op otherwise. */
  function Complete(f: Future): (r: Future)
    ensures r != Pending
    ensures f != Pending ==> r == f
    ensures f == Pending ==> r.Succeeded?
  {
    if f == Pending then Succeeded else f
  }

  /** `completeExceptionally(e)`: settles a pending future with the fault; a no-op otherwise. */
  function CompleteExceptionally(f: Future, cause: Fault): (r: Future)
    ensures r != Pending
    ensures f != Pending ==> r == f
    ensures f == Pending ==> r == Failed(cause)
  {
    if f == Pending then Failed(cause) else f
  }

  /** What the end of a cycle with outcome `o` does to the future. */
  function Settle(f: Future, o: CycleOutcome): (r: Future)
    ensures r != Pending
    ensures f != Pending ==> r == f
    ensures f == Pending ==> (r == Succeeded <==> o == Completed)
  {
    match o
    case Completed => Complete(f)
    case Threw(fault) => CompleteExceptionally(f, fault)
  }

  /** The future after a series of cycles, oldest first. */
  function SettleAll(f: Future, outcomes: seq<CycleOutcome>): (r: Future)
    decreases |outcomes|
  {
    if outcomes == [] then f else SettleAll(Settle(f, outcomes[0]), outcomes[1..])
  }

  // ----- Lemmas -----

  /** Once settled, no later cycle changes the future. */
  lemma {:induction false} SettledStays(f: Future, outcomes: seq<CycleOutcome>)
    requires f != Pending
    ensures SettleAll(f, outcomes) == f
    decreases |outcomes|
  {
    if outcomes != [] {
      SettledStays(Settle(f, outcomes[0]), outcomes[1..]);
    }
  }

  /**
   * The first cycle after start decides the future for good: success if it
   * ran through (even with an empty batch), failure with its fault if it threw.
   */
  lemma FirstCycleDecides(outcomes: seq<CycleOutcome>)
    requires outcomes != []
    ensures SettleAll(Pending, outcomes) ==
            match outcomes[0]
            case Completed => Succeeded
            case Threw(fault) => Failed(fault)
  {
    SettledStays(Settle(Pending, outcomes[0]), outcomes[1..]);
  }

  /** The future is still pending exactly while no cycle has ended. */
  lemma PendingIffNoCycle(outcomes: seq<CycleOutcome>)
    ensures SettleAll(Pending, outcomes) == Pending <==> outcomes == []
  {
    if outcomes != [] {
      FirstCycleDecides(outcomes);
    }
  }

  /** Folding one more cycle onto the history settles the previous future once more. */
  lemma {:induction false} SettleAllSnoc(f: Future, outcomes: seq<CycleOutcome>, o: CycleOutcome)
    ensures SettleAll(f, outcomes + [o]) == Settle(SettleAll(f, outcomes), o)
    decreases |outcomes|
  {
    if outcomes == [] {
      assert outcomes + [o] == [o];
    } else {
      assert (outcomes + [o])[1..] == outcomes[1..] + [o];
      SettleAllSnoc(Settle(f, outcomes[0]), outcomes[1..], o);
    }
  }
}
