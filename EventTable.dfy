/**
 * The EVENTS table as the polling relay sees it, through the three DAO
 * operations it uses: find the unpublished rows, mark rows as published by
 * id, and (from the application side) commit new rows.  The SQL itself is
 * not modelled; the table is a sequence of rows in insertion order.
 */
module EventTable {

  /** An event row read from the table; `eventId` is the primary key. */
  datatype EventToPublish = EventToPublish(eventId: nat, entityType: string, entityId: string, eventData: string)

  /** A row of the EVENTS table: the event plus its `published` flag. */
  datatype Row = Row(event: EventToPublish, published: bool)

  /** The set of primary keys present in `table`. */
  function IdSet(table: seq<Row>): (ids: set<nat>)
  {
    set r | r in table :: r.event.eventId
  }

  /** Fresh, unpublished rows for newly committed events. */
  function NewRows(events: seq<EventToPublish>): (rows: seq<Row>)
    ensures |rows| == |events|
    ensures forall k :: 0 <= k < |events| ==> rows[k] == Row(events[k], false)
  {
    if events == [] then [] else [Row(events[0], false)] + NewRows(events[1..])
  }

  /**
   * `findEventsToPublish`: the events of the unpublished rows, in table order.
   */
  function FindEventsToPublish(table: seq<Row>): (batch: seq<EventToPublish>)
    ensures |batch| <= |table|
  {
    if table == [] then []
    else (if table[0].published then [] else [table[0].event]) + FindEventsToPublish(table[1..])
  }

  /** The ids handed to `markEventsAsPublished`: one per event, in batch order. */
  function EventIds(batch: seq<EventToPublish>): (ids: seq<nat>)
    ensures |ids| == |batch|
    ensures forall k :: 0 <= k < |batch| ==> ids[k] == batch[k].eventId
  {
    if batch == [] then [] else [batch[0].eventId] + EventIds(batch[1..])
  }

  /**
   * `markEventsAsPublished`: every row whose id is in `ids` gets its
   * `published` flag set; no row is added, removed or otherwise changed.
   */
  function MarkEventsAsPublished(table: seq<Row>, ids: seq<nat>): (marked: seq<Row>)
    ensures |marked| == |table|
    ensures forall i :: 0 <= i < |table| ==>
              marked[i].event == table[i].event &&
              (marked[i].published <==> table[i].published || table[i].event.eventId in ids)
  {
    if table == [] then []
    else
      var head := if table[0].event.eventId in ids then Row(table[0].event, true) else table[0];
      [head] + MarkEventsAsPublished(table[1..], ids)
  }

  /**
   * The events of `inserts` that the database accepts when another writer
   * commits them: an insert whose id is already taken (by the table or by an
   * earlier insert of the same list) violates the primary key and is rejected.
   */
  function Admit(table: seq<Row>, inserts: seq<EventToPublish>): (admitted: seq<EventToPublish>)
    ensures forall k :: 0 <= k < |admitted| ==> admitted[k] in inserts && admitted[k].eventId !in IdSet(table)
    ensures forall j, k :: 0 <= j < k < |admitted| ==> admitted[j].eventId != admitted[k].eventId
    decreases |inserts|
  {
    if inserts == [] then []
    else if inserts[0].eventId in IdSet(table) then Admit(table, inserts[1..])
    else
      var grown := table + [Row(inserts[0], false)];
      assert IdSet(grown) == IdSet(table) + {inserts[0].eventId};
      [inserts[0]] + Admit(grown, inserts[1..])
  }

  // ----- Lemmas -----

  /**
   * Inserts with fresh, pairwise distinct ids are all accepted, in commit
   * order.
   */
  lemma {:induction false} AdmitFresh(table: seq<Row>, inserts: seq<EventToPublish>)
    requires forall k :: 0 <= k < |inserts| ==> inserts[k].eventId !in IdSet(table)
    requires forall j, k :: 0 <= j < k < |inserts| ==> inserts[j].eventId != inserts[k].eventId
    ensures Admit(table, inserts) == inserts
    decreases |inserts|
  {
    if inserts != [] {
      var grown := table + [Row(inserts[0], false)];
      assert IdSet(grown) == IdSet(table) + {inserts[0].eventId};
      var rest := inserts[1..];
      forall k | 0 <= k < |rest|
        ensures rest[k].eventId !in IdSet(grown)
      {
        assert rest[k] == inserts[k + 1];
      }
      forall j, k | 0 <= j < k < |rest|
        ensures rest[j].eventId != rest[k].eventId
      {
        assert rest[j] == inserts[j + 1] && rest[k] == inserts[k + 1];
      }
      AdmitFresh(grown, rest);
    }
  }

  /** Finding is compositional: the pending rows of a concatenation are the pending rows of each part. */
  lemma {:induction false} FindAppend(a: seq<Row>, b: seq<Row>)
    ensures FindEventsToPublish(a + b) == FindEventsToPublish(a) + FindEventsToPublish(b)
  {
    if a == [] {
      assert a + b == b;
    } else {
      assert (a + b)[1..] == a[1..] + b;
      FindAppend(a[1..], b);
    }
  }

  /** Rows just committed are all pending, in commit order. */
  lemma {:induction false} FindNewRows(events: seq<EventToPublish>)
    ensures FindEventsToPublish(NewRows(events)) == events
  {
    if events != [] {
      assert NewRows(events)[1..] == NewRows(events[1..]);
      FindNewRows(events[1..]);
    }
  }

  /**
   * An event is found exactly when some unpublished row carries it: nothing
   * unpublished is missed and nothing published is returned.
   */
  lemma {:induction false} FindIsUnpublished(table: seq<Row>, e: EventToPublish)
    ensures e in FindEventsToPublish(table) <==>
            exists i :: 0 <= i < |table| && !table[i].published && table[i].event == e
  {
    if table != [] {
      FindIsUnpublished(table[1..], e);
      var tail := FindEventsToPublish(table[1..]);
      if e in tail {
        var i :| 0 <= i < |table[1..]| && !table[1..][i].published && table[1..][i].event == e;
        assert table[i + 1] == table[1..][i];
      }
      if exists i :: 0 <= i < |table| && !table[i].published && table[i].event == e {
        var i :| 0 <= i < |table| && !table[i].published && table[i].event == e;
        if i > 0 {
          assert table[1..][i - 1] == table[i];
        }
      }
    }
  }

  /** Marking twice with the same ids leaves the table as marking once. */
  lemma MarkIdempotent(table: seq<Row>, ids: seq<nat>)
    ensures MarkEventsAsPublished(MarkEventsAsPublished(table, ids), ids) == MarkEventsAsPublished(table, ids)
  {
    var once := MarkEventsAsPublished(table, ids);
    var twice := MarkEventsAsPublished(once, ids);
    assert forall i :: 0 <= i < |table| ==> twice[i] == once[i];
  }

  /** Marking distributes over concatenation: each part is marked on its own. */
  lemma {:induction false} MarkAppend(a: seq<Row>, b: seq<Row>, ids: seq<nat>)
    ensures MarkEventsAsPublished(a + b, ids) == MarkEventsAsPublished(a, ids) + MarkEventsAsPublished(b, ids)
  {
    if a == [] {
      assert a + b == b;
    } else {
      assert (a + b)[1..] == a[1..] + b;
      MarkAppend(a[1..], b, ids);
    }
  }

  /** Rows whose ids are not in the list are left exactly as they were. */
  lemma MarkOthersUntouched(table: seq<Row>, ids: seq<nat>)
    requires forall i :: 0 <= i < |table| ==> table[i].event.eventId !in ids
    ensures MarkEventsAsPublished(table, ids) == table
  {
    var marked := MarkEventsAsPublished(table, ids);
    assert forall i :: 0 <= i < |table| ==> marked[i] == table[i];
  }

  /**
   * Marking ids that cover every pending row leaves nothing pending.
   */
  lemma {:induction false} MarkCoveringDrains(table: seq<Row>, ids: seq<nat>)
    requires forall i :: 0 <= i < |table| && !table[i].published ==> table[i].event.eventId in ids
    ensures FindEventsToPublish(MarkEventsAsPublished(table, ids)) == []
  {
    if table != [] {
      var marked := MarkEventsAsPublished(table, ids);
      assert marked[1..] == MarkEventsAsPublished(table[1..], ids);
      assert forall i :: 0 <= i < |table[1..]| && !table[1..][i].published ==> table[1..][i].event.eventId in ids by {
        forall i | 0 <= i < |table[1..]| && !table[1..][i].published
          ensures table[1..][i].event.eventId in ids
        {
          assert table[1..][i] == table[i + 1];
        }
      }
      MarkCoveringDrains(table[1..], ids);
      assert marked[0].published;
    }
  }

  /**
   * Marking exactly the ids of the found batch leaves no row pending.  This
   * rests on the fetch returning every pending row: a query with a row limit
   * would leave the rows beyond the limit pending.
   */
  lemma MarkBatchDrains(table: seq<Row>)
    ensures FindEventsToPublish(MarkEventsAsPublished(table, EventIds(FindEventsToPublish(table)))) == []
  {
    var batch := FindEventsToPublish(table);
    var ids := EventIds(batch);
    forall i | 0 <= i < |table| && !table[i].published
      ensures table[i].event.eventId in ids
    {
      FindIsUnpublished(table, table[i].event);
      var k :| 0 <= k < |batch| && batch[k] == table[i].event;
      assert ids[k] == table[i].event.eventId;
    }
    MarkCoveringDrains(table, ids);
  }
}
