/**
 * The state of the admin view (EventAdmin.tsx) and the handlers that change
 * it: loading the list, adding an event, deleting one, and the pruning pass
 * that deletes expired events. Each network request is an outcome parameter;
 * the requests that reach the events table act on a Store.
 */
module EventAdmin {
  import opened Optional
  import opened Calendar
  import opened ClockText
  import opened Events
  import opened Submission
  import opened EventStore

  /** How a POST or DELETE request ends: the route ran and the table reported no error
      (an `ok` response); the table reported an error (HTTP 500); or `fetch` threw. */
  datatype Outcome = Delivered | StoreError | Thrown

  /** How the list request ends: a body of events, an error status, or a throw. */
  datatype ListResponse = Listed(data: seq<Event>) | ListError | ListThrown

  const LoadFailedMessage: string := "Failed to load events. Please try again."
  const CreateFailedMessage: string := "Failed to create event. Please try again."
  const DeleteFailedMessage: string := "Failed to delete event. Please try again."

  /** The five form fields; a `None` date is the empty date field. */
  datatype Form = Form(date: Option<CivilDate>, title: string, time: string, timeAmPm: Meridiem, venue: string)

  const EmptyForm: Form := Form(None, "", "", AM, "")

  /** A request the view sends to `/api/admin/events`: the list GET, a POST with the
      form's JSON body, or a DELETE of one id. */
  datatype Request =
    | ListRequest
    | CreateRequest(date: Option<CivilDate>, title: string, time: string, venue: string)
    | DeleteRequest(id: int)

  /** One DELETE per event, in list order. */
  function DeleteRequests(events: seq<Event>): (r: seq<Request>)
    ensures |r| == |events|
    ensures forall i :: 0 <= i < |events| ==> r[i] == DeleteRequest(events[i].id)
    decreases |events|
  {
    if events == [] then []
    else DeleteRequests(events[..|events| - 1]) + [DeleteRequest(events[|events| - 1].id)]
  }

  /** The DELETEs for one more event are those so far followed by its own. */
  lemma DeleteRequestsStep(events: seq<Event>, k: nat)
    requires k < |events|
    ensures DeleteRequests(events[..k + 1]) == DeleteRequests(events[..k]) + [DeleteRequest(events[k].id)]
  {
    assert events[..k + 1][..k] == events[..k];
  }

  /** The ids whose DELETE reached the table without error, when the k-th delete of a pass
      ends as `outcome(k)`: each request's own outcome decides, whatever the others did. */
  function DeliveredIds(expired: seq<Event>, outcome: nat -> Outcome): (r: set<int>)
    ensures forall id :: id in r <==> exists k :: 0 <= k < |expired| && outcome(k) == Delivered && expired[k].id == id
    decreases |expired|
  {
    if expired == [] then {}
    else
      var n := |expired| - 1;
      var before := DeliveredIds(expired[..n], outcome);
      assert forall k :: 0 <= k < n ==> expired[..n][k] == expired[k];
      before + (if outcome(n) == Delivered then {expired[n].id} else {})
  }

  /** One more delete in the pass adds its id exactly when it was delivered. */
  lemma DeliveredIdsStep(expired: seq<Event>, outcome: nat -> Outcome, k: nat)
    requires k < |expired|
    ensures DeliveredIds(expired[..k + 1], outcome)
            == DeliveredIds(expired[..k], outcome) + (if outcome(k) == Delivered then {expired[k].id} else {})
  {
    assert expired[..k + 1][..k] == expired[..k];
  }

  /** Removing two sets of keys one after the other removes their union. */
  lemma RemoveUnion(rows: map<int, Event>, a: set<int>, b: set<int>)
    ensures rows - (a + b) == (rows - a) - b
  {
  }

  /** When every delete reaches the table, the pass removes exactly the ids of the expired events. */
  lemma AllDeliveredRemovesExpired(events: seq<Event>, now: int, outcome: nat -> Outcome)
    requires forall k: nat :: outcome(k) == Delivered
    ensures DeliveredIds(ExpiredEvents(events, now), outcome) == set e | e in events && IsExpired(e, now) :: e.id
  {
    var expired := ExpiredEvents(events, now);
    var removed := DeliveredIds(expired, outcome);
    var wanted := set e | e in events && IsExpired(e, now) :: e.id;
    forall id | id in wanted
      ensures id in removed
    {
      var e :| e in events && IsExpired(e, now) && e.id == id;
      assert e in expired;
      var k :| 0 <= k < |expired| && expired[k] == e;
      assert outcome(k) == Delivered;
    }
    forall id | id in removed
      ensures id in wanted
    {
      var k :| 0 <= k < |expired| && outcome(k) == Delivered && expired[k].id == id;
      assert expired[k] in expired;
    }
    assert removed == wanted;
  }

  /** A pass never removes an event that is not expired, provided ids are unique in the list. */
  lemma PruneKeepsLiveEvents(events: seq<Event>, now: int, outcome: nat -> Outcome, e: Event)
    requires DistinctIds(events)
    requires e in events && !IsExpired(e, now)
    ensures e.id !in DeliveredIds(ExpiredEvents(events, now), outcome)
  {
    var expired := ExpiredEvents(events, now);
    forall k | 0 <= k < |expired|
      ensures expired[k].id != e.id
    {
      var f := expired[k];
      assert f in expired;
      assert f != e;
      DistinctEventsDistinctIds(events, e, f);
    }
  }

  lemma DistinctEventsDistinctIds(events: seq<Event>, e: Event, f: Event)
    requires DistinctIds(events) && e in events && f in events && e != f
    ensures e.id != f.id
  {
    var i :| 0 <= i < |events| && events[i] == e;
    var j :| 0 <= j < |events| && events[j] == f;
    assert i != j;
  }

  class AdminPanel {
    var events: seq<Event>
    var loading: bool
    var date: Option<CivilDate>
    var title: string
    var time: string
    var timeAmPm: Meridiem
    var venue: string
    var submitting: bool
    var error: string
    /** The requests the view has sent so far, oldest first. */
    var requests: seq<Request>

    function FormFields(): Form
      reads this
    {
      Form(date, title, time, timeAmPm, venue)
    }

    /** The initial state of every `useState`; nothing has been sent yet. */
    constructor ()
      ensures events == [] && loading && !submitting && error == ""
      ensures FormFields() == EmptyForm && requests == []
    {
      events, loading := [], true;
      date, title, time, timeAmPm, venue := None, "", "", AM, "";
      submitting, error := false, "";
      requests := [];
    }

    /** `fetchEvents()` up to sending its GET: the callbacks run later, in ReceiveEvents,
        so callers that `await` it do not wait for the list. */
    method FetchEvents()
      modifies this`loading, this`error, this`requests
      ensures loading && error == ""
      ensures requests == old(requests) + [ListRequest]
    {
      loading := true;
      error := "";
      requests := requests + [ListRequest];
    }

    /** The `.then`, `.catch` and `.finally` of `fetchEvents`: the list is replaced only by a
        successful body; any failure keeps the old list and shows the load error. */
    method ReceiveEvents(response: ListResponse)
      modifies this`events, this`loading, this`error
      ensures !loading
      ensures response.Listed? ==> events == response.data && error == old(error)
      ensures !response.Listed? ==> events == old(events) && error == LoadFailedMessage
    {
      if response.Listed? {
        events := response.data;
      } else {
        error := LoadFailedMessage;
      }
      loading := false;
    }

    /** `handleAdd` at wall-clock instant `now`, with `post` the end of its POST request. */
    method HandleAdd(now: int, post: Outcome, store: Store)
      requires store.Valid()
      modifies this, store
      ensures store.Valid() && events == old(events)
      ensures var v := Validate(old(date), old(time), old(timeAmPm), now);
              (v == PastDate || v == PastTime) ==>
                && error == (if v == PastDate then PastDateMessage else PastTimeMessage)
                && !submitting && loading == old(loading) && requests == old(requests)
                && FormFields() == old(FormFields()) && unchanged(store)
      ensures Validate(old(date), old(time), old(timeAmPm), now) == DateFormatThrows ==>
                && submitting && error == "" && loading == old(loading) && requests == old(requests)
                && FormFields() == old(FormFields()) && unchanged(store)
      ensures var v := Validate(old(date), old(time), old(timeAmPm), now);
              v.Accepted? && post == Delivered && old(date).Some? ==>
                && store.rows == old(store.rows)[old(store.nextId) :=
                     Event(old(store.nextId), old(date).value, old(title),
                           NullIfEmpty(v.formattedTime), NullIfEmpty(old(venue)))]
                && store.nextId == old(store.nextId) + 1
                && requests == old(requests) +
                     [CreateRequest(old(date), old(title), v.formattedTime, old(venue))] + [ListRequest]
                && FormFields() == EmptyForm && !submitting && loading && error == ""
      ensures var v := Validate(old(date), old(time), old(timeAmPm), now);
              v.Accepted? && (post != Delivered || old(date).None?) ==>
                && error == CreateFailedMessage && !submitting && loading == old(loading)
                && requests == old(requests) + [CreateRequest(old(date), old(title), v.formattedTime, old(venue))]
                && FormFields() == old(FormFields()) && unchanged(store)
    {
      submitting := true;
      error := "";
      var verdict := Validate(date, time, timeAmPm, now);
      match verdict
      case PastDate =>
        error := PastDateMessage;
        submitting := false;
      case PastTime =>
        error := PastTimeMessage;
        submitting := false;
      case DateFormatThrows =>
        // the RangeError leaves handleAdd before its try block: nothing resets `submitting`
      case Accepted(formatted) =>
        Submit(formatted, post, store);
    }

    /**
     * The rest of `handleAdd` once the checks pass: the POST, with `post` its
     * end. On success the form is cleared and the list re-fetched; on failure
     * the create error is shown and the form kept. `submitting` ends either way.
     */
    method Submit(formatted: string, post: Outcome, store: Store)
      requires store.Valid()
      modifies this`date, this`title, this`time, this`timeAmPm, this`venue
      modifies this`submitting, this`error, this`loading, this`requests, store
      ensures store.Valid() && events == old(events) && !submitting
      ensures post == Delivered && old(date).Some? ==>
                && store.rows == old(store.rows)[old(store.nextId) :=
                     Event(old(store.nextId), old(date).value, old(title),
                           NullIfEmpty(formatted), NullIfEmpty(old(venue)))]
                && store.nextId == old(store.nextId) + 1
                && requests == old(requests) + [CreateRequest(old(date), old(title), formatted, old(venue))] + [ListRequest]
                && FormFields() == EmptyForm && loading && error == ""
      ensures (post != Delivered || old(date).None?) ==>
                && error == CreateFailedMessage && loading == old(loading)
                && requests == old(requests) + [CreateRequest(old(date), old(title), formatted, old(venue))]
                && FormFields() == old(FormFields()) && unchanged(store)
    {
      requests := requests + [CreateRequest(date, title, formatted, venue)];
      if post == Delivered && date.Some? {
        var _ := store.Insert(date.value, title, formatted, venue);
        ClearForm();
        FetchEvents();
      } else {
        error := CreateFailedMessage;
      }
      submitting := false;
    }

    /** The form reset after a successful POST: every field empty, AM selected. */
    method ClearForm()
      modifies this`date, this`title, this`time, this`timeAmPm, this`venue
      ensures FormFields() == EmptyForm
    {
      date, title, time, timeAmPm, venue := None, "", "", AM, "";
    }

    /** `handleDelete(id)`, with `outcome` the end of its DELETE request. */
    method HandleDelete(id: int, outcome: Outcome, store: Store)
      requires store.Valid()
      modifies this`loading, this`error, this`requests, store`rows
      ensures store.Valid()
      ensures outcome == Delivered ==>
                && store.rows == old(store.rows) - {id} && loading && error == ""
                && requests == old(requests) + [DeleteRequest(id)] + [ListRequest]
      ensures outcome != Delivered ==>
                && store.rows == old(store.rows) && loading == old(loading) && error == DeleteFailedMessage
                && requests == old(requests) + [DeleteRequest(id)]
    {
      error := "";
      requests := requests + [DeleteRequest(id)];
      if outcome == Delivered {
        store.Delete(id);
        FetchEvents();
      } else {
        error := DeleteFailedMessage;
      }
    }

    /**
     * The loop of `deleteExpiredEvents`: one DELETE per event of `expired`, in
     * order, the k-th ending as `outcome(k)`. A failed or thrown delete is only
     * logged, so every event gets its request.
     */
    method DeleteEach(expired: seq<Event>, outcome: nat -> Outcome, store: Store)
      requires store.Valid()
      modifies this`requests, store`rows
      ensures store.Valid()
      ensures requests == old(requests) + DeleteRequests(expired)
      ensures store.rows == old(store.rows) - DeliveredIds(expired, outcome)
    {
      ghost var rowsBefore, sentBefore := store.rows, requests;
      for k := 0 to |expired|
        invariant store.Valid()
        invariant requests == sentBefore + DeleteRequests(expired[..k])
        invariant store.rows == rowsBefore - DeliveredIds(expired[..k], outcome)
      {
        DeliveredIdsStep(expired, outcome, k);
        RemoveUnion(rowsBefore, DeliveredIds(expired[..k], outcome),
                    if outcome(k) == Delivered then {expired[k].id} else {});
        DeleteRequestsStep(expired, k);
        DeleteOne(expired[k].id, outcome(k), store);
      }
      assert expired[..|expired|] == expired;
    }

    /** One auto-delete: the DELETE is sent, and the row goes only when it was delivered. */
    method DeleteOne(id: int, outcome: Outcome, store: Store)
      requires store.Valid()
      modifies this`requests, store`rows
      ensures store.Valid()
      ensures requests == old(requests) + [DeleteRequest(id)]
      ensures store.rows == old(store.rows) - (if outcome == Delivered then {id} else {})
    {
      requests := requests + [DeleteRequest(id)];
      if outcome == Delivered {
        store.Delete(id);
      }
    }

    /**
     * `deleteExpiredEvents` at wall-clock instant `now`: the held events that
     * have expired are deleted one by one (DeleteEach), and the list is
     * re-fetched exactly when there was at least one.
     */
    method DeleteExpiredEvents(now: int, outcome: nat -> Outcome, store: Store)
      requires store.Valid()
      modifies this`loading, this`error, this`requests, store`rows
      ensures store.Valid()
      ensures var expired := ExpiredEvents(events, now);
              && requests == old(requests) + DeleteRequests(expired) + (if expired != [] then [ListRequest] else [])
              && store.rows == old(store.rows) - DeliveredIds(expired, outcome)
              && (expired != [] ==> loading && error == "")
              && (expired == [] ==> loading == old(loading) && error == old(error))
    {
      var expired := ExpiredEvents(events, now);
      DeleteEach(expired, outcome, store);
      if |expired| > 0 {
        FetchEvents();
      }
    }

    /** One run of the pruning effect, or one firing of the one-minute interval: a pass
        runs only while events are held. */
    method Tick(now: int, outcome: nat -> Outcome, store: Store)
      requires store.Valid()
      modifies this`loading, this`error, this`requests, store`rows
      ensures store.Valid()
      ensures events == [] ==> unchanged(this, store)
      ensures events != [] ==>
                var expired := ExpiredEvents(events, now);
                && requests == old(requests) + DeleteRequests(expired) + (if expired != [] then [ListRequest] else [])
                && store.rows == old(store.rows) - DeliveredIds(expired, outcome)
                && (expired != [] ==> loading && error == "")
                && (expired == [] ==> loading == old(loading) && error == old(error))
    {
      if |events| > 0 {
        DeleteExpiredEvents(now, outcome, store);
      }
    }
  }
}

/** The pruning scenario: at 23:00 on 2025-08-31 an event of that day at 10:00 AM is expired,
    the next pass deletes it, and no later listing of the table holds it. */
module PruningScenario {
  import opened Optional
  import opened Calendar
  import opened ClockText
  import opened Events
  import opened EventStore
  import opened EventAdmin

  /** The event as the table stores it after its POST. */
  const OpenHouse: Event := Event(1, CivilDate(2025, 8, 31), "Open House", Some("10:00 AM"), None)

  /** 23:00 on 2025-08-31 in Chengdu. */
  const ElevenAtNight: int := DayStart(20331) + 23 * MsPerHour

  /** "10:00 AM" reads as ten o'clock in the morning. */
  lemma TenInTheMorningReading()
    ensures ParseStoredTime("10:00 AM") == Some(ClockMatch(10, 0, Some(AM)))
  {
    assert MatchAt(HoursMinutesMeridiem, "10:00 AM", 0) == Some(ClockMatch(10, 0, Some(AM)));
  }

  lemma TenInTheMorningExpiredByEleven()
    ensures IsExpired(OpenHouse, ElevenAtNight)
  {
    TenInTheMorningReading();
    DayNumberAnchors();
    assert Deadline(OpenHouse.date, OpenHouse.time) == DayStart(20331) + 10 * MsPerHour;
  }

  /** The pass at 23:00 while the view holds the event: one DELETE, then one GET. */
  method Prune(panel: AdminPanel, store: Store)
    requires store.Valid() && store.rows == map[1 := OpenHouse]
    requires panel.events == [OpenHouse] && panel.requests == [ListRequest]
    modifies panel, store
    ensures store.rows == map[] && panel.loading
    ensures panel.requests == [ListRequest, DeleteRequest(1), ListRequest]
  {
    TenInTheMorningExpiredByEleven();
    assert ExpiredEvents([OpenHouse], ElevenAtNight) == [OpenHouse];
    assert DeleteRequests([OpenHouse]) == [DeleteRequest(1)];
    panel.Tick(ElevenAtNight, _ => Delivered, store);
    assert panel.requests == [ListRequest] + [DeleteRequest(1)] + [ListRequest];
  }

  /** The event is created, the view loads it, and the next pass removes it: the view has
      sent the initial GET, the pass's DELETE and the refresh GET, and the table is empty. */
  method Run() returns (store: Store, panel: AdminPanel)
    ensures store.rows == map[]
    ensures panel.requests == [ListRequest, DeleteRequest(1), ListRequest]
  {
    store := new Store();
    var e := store.Insert(CivilDate(2025, 8, 31), "Open House", "10:00 AM", "");
    assert e == OpenHouse;
    panel := new AdminPanel();
    panel.FetchEvents();
    panel.ReceiveEvents(Listed([e]));
    Prune(panel, store);
  }
}
