/**
 * The events table behind `/api/admin/events` (app/api/admin/events/route.ts),
 * keyed by the id the table assigns. The route's GET lists every row by
 * ascending date, POST stores empty `time`/`venue` as null, and DELETE reports
 * success whenever the table reports no error, whether or not the id existed.
 */
module EventStore {
  import opened Calendar
  import opened Events

  class Store {
    var rows: map<int, Event>
    var nextId: int

    /** Every row is filed under its own id, and ids still to be assigned are unused. */
    ghost predicate Valid()
      reads this
    {
      forall id :: id in rows ==> id < nextId && rows[id].id == id
    }

    constructor ()
      ensures Valid() && rows == map[] && nextId == 1
    {
      rows := map[];
      nextId := 1;
    }

    /** The insert of POST: a fresh id, and null for an empty time or venue. */
    method Insert(date: CivilDate, title: string, time: string, venue: string) returns (created: Event)
      requires Valid()
      modifies this
      ensures Valid()
      ensures old(nextId) !in old(rows)
      ensures created == Event(old(nextId), date, title, NullIfEmpty(time), NullIfEmpty(venue))
      ensures rows == old(rows)[created.id := created] && nextId == old(nextId) + 1
    {
      created := Event(nextId, date, title, NullIfEmpty(time), NullIfEmpty(venue));
      rows := rows[nextId := created];
      nextId := nextId + 1;
    }

    /** The delete of DELETE: removing an id that is not there changes nothing and is no error. */
    method Delete(id: int)
      requires Valid()
      modifies this`rows
      ensures Valid()
      ensures rows == old(rows) - {id}
    {
      rows := rows - {id};
    }
  }

  /** `data` is what GET returns for `rows`: every row once, ascending by date. */
  predicate IsListing(data: seq<Event>, rows: map<int, Event>) {
    && DistinctIds(data)
    && (forall i :: 0 <= i < |data| ==> data[i].id in rows && rows[data[i].id] == data[i])
    && (forall id :: id in rows ==> exists i :: 0 <= i < |data| && data[i].id == id)
    && (forall i, j :: 0 <= i < j < |data| ==> DayNumber(data[i].date) <= DayNumber(data[j].date))
  }

  /** Deleting twice leaves the table as deleting once. */
  lemma DeleteIdempotent(rows: map<int, Event>, id: int)
    ensures (rows - {id}) - {id} == rows - {id}
  {
  }

  /** A row just inserted shows up, unchanged, in every later listing. */
  lemma ListingHoldsInserted(data: seq<Event>, rows: map<int, Event>, created: Event)
    requires IsListing(data, rows[created.id := created])
    ensures created in data
  {
    assert created.id in rows[created.id := created];
    var i :| 0 <= i < |data| && data[i].id == created.id;
    assert data[i] == created;
  }

  /** No listing after a deletion holds any event with a deleted id. */
  lemma ListingOmitsDeleted(data: seq<Event>, rows: map<int, Event>, gone: set<int>, e: Event)
    requires IsListing(data, rows - gone)
    requires e.id in gone
    ensures forall d :: d in data ==> d.id != e.id
  {
  }
}
