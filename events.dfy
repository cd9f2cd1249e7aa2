/**
 * Events and the expiry rule of EventAdmin.tsx (`isEventExpired`), with the
 * filter that selects the expired ones among the events the view holds.
 */
module Events {
  import opened Optional
  import opened Calendar
  import opened ClockText

  /** A row of the events table. `time` and `venue` are null when none was given. */
  datatype Event = Event(id: int, date: CivilDate, title: string, time: Option<string>, venue: Option<string>)

  /** JavaScript truthiness of an optional string: present and not empty. */
  predicate Present(o: Option<string>) {
    o.Some? && o.value != ""
  }

  /** The store's `value || null`: an empty string is kept as null. */
  function NullIfEmpty(s: string): (o: Option<string>)
    ensures Present(o) <==> s != ""
    ensures Present(o) ==> o.value == s
  {
    if s == "" then None else Some(s)
  }

  /** 23:59:59.999 as milliseconds after midnight. */
  const EndOfDay: int := 23 * MsPerHour + 59 * MsPerMinute + 59 * MsPerSecond + 999

  /** `setHours(hours, minutes, 0, 0)` on the date's midnight; hours past 23 run into later days. */
  function ClockInstant(date: CivilDate, hours: nat, minutes: nat): (t: int)
    ensures t >= DayStart(DayNumber(date))
    ensures t == DayStart(DayNumber(date) + hours / 24) + (hours % 24) * MsPerHour + minutes * MsPerMinute
  {
    DayStart(DayNumber(date)) + hours * MsPerHour + minutes * MsPerMinute
  }

  /** The instant `isEventExpired` compares "now" against: the parsed time on the event's
      date; midnight of the date when a time is present but does not match; the last
      millisecond of the date when there is no time. */
  function Deadline(date: CivilDate, time: Option<string>): (t: int)
    ensures t >= DayStart(DayNumber(date))
    ensures !(Present(time) && ParseStoredTime(time.value).Some?) ==> t <= DayStart(DayNumber(date)) + EndOfDay
  {
    if Present(time) then
      match ParseStoredTime(time.value)
      case Some(c) => ClockInstant(date, To24Hour(c.hours, c.meridiem.value), c.minutes)
      case None => DayStart(DayNumber(date))
    else DayStart(DayNumber(date)) + EndOfDay
  }

  /** `chengduNow > eventDateTime`: strictly after, so an event is not yet expired at its own instant. */
  predicate IsExpired(e: Event, now: int) {
    now > Deadline(e.date, e.time)
  }

  /** An event with a readable 12-hour time expires once the wall clock is past that time
      of its date: on a later day, or on the same day later than that time. */
  lemma ExpiredWithTime(e: Event, now: int)
    requires Present(e.time) && ParseStoredTime(e.time.value).Some?
    requires var c := ParseStoredTime(e.time.value).value; 1 <= c.hours <= 12 && c.minutes <= 59
    ensures var c := ParseStoredTime(e.time.value).value;
            var at := To24Hour(c.hours, c.meridiem.value) * MsPerHour + c.minutes * MsPerMinute;
            0 <= at < MsPerDay &&
            (IsExpired(e, now) <==>
              Today(now) > DayNumber(e.date) || (Today(now) == DayNumber(e.date) && MsOfDay(now) > at))
  {
    var c := ParseStoredTime(e.time.value).value;
    var at := To24Hour(c.hours, c.meridiem.value) * MsPerHour + c.minutes * MsPerMinute;
    AfterWallClock(now, DayNumber(e.date), at);
  }

  /**
   * Any reading the pattern accepts, whatever its hours and minutes: `setHours`
   * carries minutes past 59 into the hour and hours past 23 into later days, so
   * the event expires once the wall clock is past that carried instant.
   */
  lemma ExpiredWithAnyParsedTime(e: Event, now: int)
    requires Present(e.time) && ParseStoredTime(e.time.value).Some?
    ensures var c := ParseStoredTime(e.time.value).value;
            var minutes := To24Hour(c.hours, c.meridiem.value) * 60 + c.minutes;
            var day := DayNumber(e.date) + minutes / 1440;
            var at := (minutes % 1440) * MsPerMinute;
            0 <= at < MsPerDay &&
            (IsExpired(e, now) <==> Today(now) > day || (Today(now) == day && MsOfDay(now) > at))
  {
    var c := ParseStoredTime(e.time.value).value;
    var h := To24Hour(c.hours, c.meridiem.value);
    var minutes := h * 60 + c.minutes;
    var day := DayNumber(e.date) + minutes / 1440;
    var at := (minutes % 1440) * MsPerMinute;
    assert minutes == 1440 * (minutes / 1440) + minutes % 1440;
    assert Deadline(e.date, e.time) == DayStart(DayNumber(e.date)) + minutes * MsPerMinute;
    assert Deadline(e.date, e.time) == DayStart(day) + at;
    AfterWallClock(now, day, at);
  }

  /** An event without a time expires exactly when the wall clock has reached a later day. */
  lemma ExpiredWithoutTime(e: Event, now: int)
    requires !Present(e.time)
    ensures IsExpired(e, now) <==> Today(now) > DayNumber(e.date)
  {
    AfterWallClock(now, DayNumber(e.date), EndOfDay);
  }

  /** An event whose time is present but unreadable expires as soon as its date has begun. */
  lemma ExpiredWithUnreadableTime(e: Event, now: int)
    requires Present(e.time) && ParseStoredTime(e.time.value).None?
    ensures IsExpired(e, now) <==>
            Today(now) > DayNumber(e.date) || (Today(now) == DayNumber(e.date) && MsOfDay(now) > 0)
  {
    AfterWallClock(now, DayNumber(e.date), 0);
  }

  /** No event is expired before its date begins. */
  lemma NotExpiredBeforeItsDay(e: Event, now: int)
    requires Today(now) < DayNumber(e.date)
    ensures !IsExpired(e, now)
  {
    assert now < DayStart(Today(now) + 1);
  }

  /** `events.filter(event => isEventExpired(event.event_date, event.time))`. */
  function ExpiredEvents(events: seq<Event>, now: int): (r: seq<Event>)
    ensures |r| <= |events|
    ensures forall e :: e in r <==> e in events && IsExpired(e, now)
  {
    if events == [] then []
    else
      var rest := ExpiredEvents(events[1..], now);
      assert forall e :: e in events <==> e == events[0] || e in events[1..];
      if IsExpired(events[0], now) then [events[0]] + rest else rest
  }

  /** The filter keeps list order: filtering a concatenation filters each part in turn. */
  lemma {:induction false} ExpiredEventsAppend(a: seq<Event>, b: seq<Event>, now: int)
    ensures ExpiredEvents(a + b, now) == ExpiredEvents(a, now) + ExpiredEvents(b, now)
  {
    if a != [] {
      assert (a + b)[1..] == a[1..] + b;
      ExpiredEventsAppend(a[1..], b, now);
    } else {
      assert a + b == b;
    }
  }

  /** No two events share an id, as in any listing of the store. */
  predicate DistinctIds(events: seq<Event>) {
    forall i, j :: 0 <= i < j < |events| ==> events[i].id != events[j].id
  }
}
