# Event lifecycle of the signage admin view, in Dafny

This project models the policy part of a university digital-signage web
application. The admin view (`EventAdmin.tsx`) checks new events against the
current time in Chengdu (UTC+8). It deletes events whose date and time have
passed, on load and once a minute, and refreshes its list after every change.
The model also covers the public list (`UpcomingEvents.tsx`), which shows the
first five fetched events by date, and the header (`Header.tsx`), which picks a
weather icon and aligns its clock to the minute.

## How the model is built

- **Time.** An instant is a whole number of milliseconds on the UTC+8 wall
  clock. Day `d` starts at `DayStart(d) = d * 86400000`. `Today(now)` and
  `MsOfDay(now)` split an instant into its day and its time of day. A
  `yyyy-MM-dd` date is a `CivilDate`; `DayNumber` counts its days from
  1970-01-01, as `new Date('yyyy-MM-dd')` does. With this reading, the code's
  `Date` arithmetic is exact for a browser whose own time zone is UTC.
- **The 12-hour rule.** `ClockText.To24Hour` applies the component's two
  adjustments in order: PM adds 12 unless the hour is 12, then AM turns 12
  into 0. `From24Hour` is its inverse, and the two lemmas beside it prove the
  24 readings map one-to-one onto 0..23.
- **The two patterns.** `ClockText.Search` is `String.prototype.match`: the
  leftmost index where the pattern matches. `MatchAt` anchors either pattern:
  `(\d{1,2}):(\d{2})` for submission, and the same plus `\s*(AM|PM)` under
  the `i` flag for expiry. `\d` is ASCII digits; `\s` is JavaScript's set of
  white-space and line-terminator characters. Hours may be anything from 0 to
  99. `setHours` rolls hours past 23 into later days, and `ClockInstant` does
  the same.
- **Expiry.** `Events.Deadline` is the instant the code compares "now" with:
  - the parsed time on the event's date;
  - midnight of the date when a time is present but does not match;
  - 23:59:59.999 of the date when there is no time.

  `IsExpired` asks whether now is strictly later.
- **Submission.** `Submission.Validate` holds the checks of `handleAdd`.
  `EventAdmin.AdminPanel.HandleAdd` applies the state updates around them.
  An empty date field is `None`. With a time entered, the code hands date-fns'
  `format` an invalid `Date`, which throws outside the `try`. That leaves
  `submitting` true; the model keeps this.
- **Network.** POST, DELETE and the admin GET do not run. Each one's end is an
  `Outcome` parameter: `Delivered` (the route ran and the table reported no
  error), `StoreError` (HTTP 500) or `Thrown`. Requests that arrive act on
  `EventStore.Store`, a `map<int, Event>` keyed by the table's ids. The list
  request's body is a `ListResponse` parameter; `EventStore.IsListing` says
  what a correct GET body for a table is. The admin panel keeps a log of
  the requests it has sent, `requests`: a `ListRequest` per GET, a
  `CreateRequest` with the posted fields per POST and a `DeleteRequest` per
  DELETE. Every state-changing method states what it appends to that log.
- **Asynchrony.** `fetchEvents` returns nothing, so `await fetchEvents()` does
  not wait for the list. The model splits it in two:
  - `FetchEvents` is the part that runs at once: `loading` becomes true and
    `error` is cleared.
  - `ReceiveEvents` is the later callback.

  The pruning pass awaits each DELETE in turn, so it is one sequential loop.
- **Sorting.** `Array.prototype.sort` is stable. `UpcomingEvents.SortBy` is
  a stable insertion sort by key, and the lemmas prove sorted order,
  permutation and stability.

Notes on the code's behaviour:

- The pruning pass sends its deletes one after another, in list order; they
  are not concurrent.
- The public list reads `/api/admin/events`, so past events are not filtered
  out before the five are taken.
- `handleDelete` reports a failure for an HTTP error status. The pruning pass
  does not: it cannot tell an error status from success and only logs a
  thrown request.

One behaviour of the code shows up in the model as written. The time field is
an `<input type="time">`, whose value is always 24-hour `HH:MM`, and the
AM/PM selector is applied on top of it:

- "14:30" with PM reads as hour 26, which `setHours` turns into 02:30 of the
  next day.
- "12:30" with the default AM reads as 00:30.

`TimeInputValues` shows that submission and expiry both read such a value as
its own two digit pairs: "14:30" stored as "14:30 PM" has hours 14, which the
12-hour rule turns into 26. `AcceptedEventNotExpired` shows that an accepted
event is never expired at the moment it was accepted.

## Model

| member | source | states |
|---|---|---|
| `ClockText.To24Hour` | app/components/EventAdmin.tsx:53-54 | for hours 1..12 the result lies in 0..23, AM gives an hour below 12 and PM one of 12 or more; for any parsed hours the result equals the hours modulo 12 |
| `ClockText.From24Hour` | app/components/EventAdmin.tsx:53-54 | the reading of an hour of the day as 12-hour hours in 1..12; it models no line itself and is the inverse of To24Hour that the onto and one-to-one lemmas are stated with |
| `ClockText.To24HourOnto` | app/components/EventAdmin.tsx:53-54 | every hour 0..23 is reached by the reading From24Hour/MeridiemOf gives it |
| `ClockText.To24HourOneToOne` | app/components/EventAdmin.tsx:53-54 | two different (hours, AM/PM) readings with hours in 1..12 never give the same hour: the reading is recovered from the hour |
| `ClockText.HoursMinutesAt` | app/components/EventAdmin.tsx:149 | an anchored `(\d{1,2}):(\d{2})` match has hours and minutes of at most 99 and spans four or five characters inside the string |
| `ClockText.HoursMinutesAtCaptures` | app/components/EventAdmin.tsx:149 | the anchored `(\d{1,2}):(\d{2})` matches iff the text there is one or two digits, a colon and two digits; it takes two hour digits when it can, and its hours and minutes are the decimal values of the two digit runs |
| `ClockText.SkipSpace` | app/components/EventAdmin.tsx:47 | `\s*` stops at the first character that is not JavaScript white space, and everything it skips is white space |
| `ClockText.MatchAt` | app/components/EventAdmin.tsx:47 | an anchored match of either pattern captures hours and minutes of at most 99, and a meridiem exactly for the pattern ending in `(AM\|PM)` |
| `ClockText.UpperAscii` | app/components/EventAdmin.tsx:47 | the case folding of a pattern without the `u` flag as `AM\|PM` sees it: ASCII lower-case letters become upper case, every other character is left alone |
| `ClockText.MeridiemAtFolds` | app/components/EventAdmin.tsx:47 | `(AM\|PM)` under `/i` finds the meridiem whose selector text the two characters spell once folded to upper case ("am", "Pm" and so on), and none when they spell neither |
| `ClockText.MatchAtCaptures` | app/components/EventAdmin.tsx:47-51 | either pattern matches at an index iff the text there spells `(\d{1,2}):(\d{2})` and, for the expiry pattern, AM or PM in either case follows the white space; the captured hours and minutes are the values of the digit runs and the meridiem is the one spelled |
| `ClockText.Search` | app/components/EventAdmin.tsx:47 | `match` finds the leftmost match: the returned start matches; no earlier index does; when nothing is returned no index matches |
| `ClockText.ParseFormTime` | app/components/EventAdmin.tsx:149-152 | the submission pattern matches iff it matches at some index; the match returned is the one at the leftmost matching index and carries no meridiem |
| `ClockText.ParseStoredTime` | app/components/EventAdmin.tsx:47-51 | the expiry pattern matches iff it matches at some index; the match returned is the one at the leftmost matching index and carries its AM/PM |
| `ClockText.TimeInputValues` | app/components/EventAdmin.tsx:147-169 | a time input value `HH:MM` is read on submission as hours HH and minutes MM, and with " AM"/" PM" appended it is read at expiry as the same hours and minutes with that meridiem |
| `ClockText.StoredTimeReadsBack` | app/components/EventAdmin.tsx:147-169 | a `HH:MM` time input value with " AM"/" PM" appended is read at expiry with the same hours and minutes as at submission, and with the chosen meridiem |
| `Calendar.MsOfDay` | app/components/EventAdmin.tsx:139 | an instant is its day's midnight plus a time of day in 0..86399999 |
| `Calendar.AfterWallClock` | app/components/EventAdmin.tsx:63 | "now is strictly after `off` ms into day d" iff now is on a later day, or on day d more than `off` ms after midnight |
| `Calendar.DayNumber` | app/components/EventAdmin.tsx:43 | `new Date('yyyy-MM-dd')` as a count of days from 1970-01-01 (also EventAdmin.tsx:137 and UpcomingEvents.tsx:24): the anchors and the successor lemma below pin it to the Gregorian calendar |
| `Calendar.DayNumberAnchors` | app/components/EventAdmin.tsx:43 | 1970-01-01, 2000-03-01 and 2025-08-31 have the day numbers JavaScript's `Date` gives them |
| `Calendar.MarchYearLength` | app/components/EventAdmin.tsx:43 | a year counted from March 1 has 366 days iff the following calendar year is a Gregorian leap year, and 365 otherwise |
| `Calendar.DaysBeforeMonthValues` | app/components/EventAdmin.tsx:43 | the days before each month, counted from March: 0, 31, 61, 92, 122, 153, 184, 214, 245, 275, 306, 337 |
| `Calendar.DayNumberNextDay` | app/components/EventAdmin.tsx:43 | the day after any valid date is a valid date and has the next day number, across month ends, year ends and Gregorian leap days; with the 1970-01-01 anchor, the day number of every valid date is its count of days from 1970-01-01 |
| `Events.NullIfEmpty` | app/api/admin/events/route.ts:19 | the stored optional value is present (truthy) iff the posted text is non-empty, and then equals it |
| `Events.ClockInstant` | app/components/EventAdmin.tsx:56 | `setHours(h, m, 0, 0)` is never before the date's midnight and rolls hours past 23 into later days |
| `Events.Deadline` | app/components/EventAdmin.tsx:41-61 | the compared instant is never before the date's midnight, and without a readable time it is no later than 23:59:59.999 of the date |
| `Events.IsExpired` | app/components/EventAdmin.tsx:41-64 | `chengduNow > eventDateTime`: now is strictly after the event's Deadline, so an event is not expired at its own instant |
| `Events.ExpiredWithTime` | app/components/EventAdmin.tsx:45-63 | an event with a readable time h:mm AM/PM (hours 1..12) is expired iff now is on a later day, or on its day strictly after that time; at equality it is not |
| `Events.ExpiredWithoutTime` | app/components/EventAdmin.tsx:58-63 | an event without a time is expired iff the current day is after its date |
| `Events.ExpiredWithAnyParsedTime` | app/components/EventAdmin.tsx:45-63 | for any parsed reading, hours up to 99 and minutes up to 99 included, the event is expired iff now is past the day and time of day the reading rolls over to |
| `Events.ExpiredWithUnreadableTime` | app/components/EventAdmin.tsx:43-48 | an event whose time does not match is expired as soon as now is past its date's midnight |
| `Events.NotExpiredBeforeItsDay` | app/components/EventAdmin.tsx:41-63 | no event is expired before its date begins |
| `Events.ExpiredEvents` | app/components/EventAdmin.tsx:87-89 | the filter keeps exactly the expired events of the list and is no longer than it |
| `Events.ExpiredEventsAppend` | app/components/EventAdmin.tsx:87-89 | the filter keeps list order: filtering a concatenation concatenates the filtered parts |
| `Submission.FormatTime` | app/components/EventAdmin.tsx:169 | the posted time is the field, a space and AM/PM when the field is non-empty, and empty otherwise |
| `Submission.Validate` | app/components/EventAdmin.tsx:136-166 | past date iff the date is before today; the format error iff the date is empty and a time was given; past time iff same day, a matching time and its instant at or before now; an accepted submission posts FormatTime |
| `Submission.AcceptedEventNotExpired` | app/components/EventAdmin.tsx:148-169 | an event accepted at now, with a `HH:MM` time or none, is not expired at that now once stored |
| `EventStore.Store.constructor` | app/api/admin/events/route.ts:15-22 | an empty table whose first id is 1 |
| `EventStore.Store.Insert` | app/api/admin/events/route.ts:15-22 | POST adds exactly one row under a fresh id, with empty time and venue stored as null |
| `EventStore.Store.Delete` | app/api/admin/events/route.ts:25-32 | DELETE removes the id if present and changes nothing else |
| `EventStore.DeleteIdempotent` | app/api/admin/events/route.ts:25-32 | deleting an id twice leaves the table as deleting it once |
| `EventStore.IsListing` | app/api/admin/events/route.ts:5-12 | a correct GET body for a table: every row exactly once, unchanged, with distinct ids, ascending by date |
| `EventStore.ListingHoldsInserted` | app/api/admin/events/route.ts:5-12 | a listing after an insert holds the inserted row unchanged |
| `EventStore.ListingOmitsDeleted` | app/api/admin/events/route.ts:5-12 | a listing after deletions holds no event with a deleted id |
| `EventAdmin.DeliveredIds` | app/components/EventAdmin.tsx:91-102 | an id is removed iff some delete of the pass carried it and that delete's own outcome was Delivered, whatever the others did |
| `EventAdmin.AllDeliveredRemovesExpired` | app/components/EventAdmin.tsx:86-106 | when every delete reaches the table, the pass removes exactly the ids of the held expired events |
| `EventAdmin.PruneKeepsLiveEvents` | app/components/EventAdmin.tsx:87-102 | with unique ids, a pass never removes an event that is not expired |
| `EventAdmin.DistinctEventsDistinctIds` | app/components/EventAdmin.tsx:96 | in a list with unique ids, two different events have different ids |
| `EventAdmin.AdminPanel.constructor` | app/components/EventAdmin.tsx:16-24 | the initial state: no events, loading, empty form with AM, not submitting, no error, no request sent |
| `EventAdmin.AdminPanel.FetchEvents` | app/components/EventAdmin.tsx:66-69 | starting a fetch sends one GET, sets loading and clears the error |
| `EventAdmin.AdminPanel.ReceiveEvents` | app/components/EventAdmin.tsx:70-82 | loading ends; a body replaces the list; any failure keeps the list and shows the load error |
| `EventAdmin.AdminPanel.HandleAdd` | app/components/EventAdmin.tsx:131-195 | a past date or time shows its message, sends nothing, keeps the form and ends submitting; an empty date with a time sends nothing and leaves submitting on; an accepted submission sends one POST of the form's date, title, formatted time and venue; a delivered one inserts the event, clears the form to AM and then sends a GET; a failed POST shows the create error, keeps the form and sends nothing more |
| `EventAdmin.AdminPanel.Submit` | app/components/EventAdmin.tsx:171-194 | one POST is sent; a delivered one adds exactly the event under the next id, clears the form and then sends a GET; a failed or thrown one shows the create error and changes neither the table nor the form; submitting ends either way |
| `EventAdmin.AdminPanel.ClearForm` | app/components/EventAdmin.tsx:187 | the form is empty again, with AM selected |
| `EventAdmin.AdminPanel.HandleDelete` | app/components/EventAdmin.tsx:197-215 | one DELETE of the id is sent; a delivered one removes the id and then sends a GET; a failed one keeps the table, shows the delete error and sends nothing more |
| `EventAdmin.AdminPanel.DeleteEach` | app/components/EventAdmin.tsx:91-102 | one DELETE per given event is sent, in list order, whatever earlier ones did; the table loses exactly the ids whose own delete was delivered |
| `EventAdmin.AdminPanel.DeleteOne` | app/components/EventAdmin.tsx:92-101 | one DELETE of the id is sent; the table loses the id iff it was delivered |
| `EventAdmin.DeleteRequests` | app/components/EventAdmin.tsx:91-97 | the DELETE requests of a pass: one per event, position by position, each carrying that event's id |
| `EventAdmin.DeleteRequestsStep` | app/components/EventAdmin.tsx:91-102 | the DELETEs for the first k+1 events are those for the first k followed by the one for event k |
| `EventAdmin.AdminPanel.DeleteExpiredEvents` | app/components/EventAdmin.tsx:86-107 | the requests sent are one DELETE per held expired event, in list order, followed by a GET iff at least one event was expired; the table loses exactly the delivered ones; loading is set and the error cleared iff one was expired |
| `EventAdmin.AdminPanel.Tick` | app/components/EventAdmin.tsx:113-129 | with no events held nothing happens and nothing is sent; otherwise one pruning pass, with the requests and table changes of DeleteExpiredEvents |
| `PruningScenario.TenInTheMorningExpiredByEleven` | app/components/EventAdmin.tsx:41-64 | at 23:00 on 2025-08-31 an event of that day at "10:00 AM" is expired |
| `PruningScenario.Prune` | app/components/EventAdmin.tsx:86-107 | a tick at 23:00 with that event held and stored sends its DELETE and then a GET, and leaves the table empty |
| `PruningScenario.Run` | app/components/EventAdmin.tsx:66-111 | an event posted for 10:00 AM on 2025-08-31, loaded by the view and pruned at 23:00: the view has sent the initial GET, the DELETE and the refresh GET, and the table is empty |
| `Decimal.DigitChar` | app/components/UpcomingEvents.tsx:36 | the character for a digit value is a digit with that value |
| `Decimal.DecimalString` | app/components/UpcomingEvents.tsx:36 | `String(n)` is the digits whose value is n, without a leading zero, one digit below 10 and two below 100 |
| `UpcomingEvents.InsertBy` | app/components/UpcomingEvents.tsx:23-25 | inserting into a sorted list keeps it sorted and adds exactly the one element |
| `UpcomingEvents.SortBy` | app/components/UpcomingEvents.tsx:23-25 | the sort's result is sorted by the key and a permutation of its input |
| `UpcomingEvents.SortByDate` | app/components/UpcomingEvents.tsx:23-25 | `data.sort` by `new Date(event_date).getTime()`: the result is ascending by day number and a permutation of the fetched events |
| `UpcomingEvents.InsertByWithKey` | app/components/UpcomingEvents.tsx:23-25 | insertion puts the element ahead of all elements with its key |
| `UpcomingEvents.SortByStable` | app/components/UpcomingEvents.tsx:23-25 | the sort is stable: the elements of each key keep their input order |
| `UpcomingEvents.SortByDateStable` | app/components/UpcomingEvents.tsx:23-25 | events of one date keep their fetched order |
| `UpcomingEvents.PrefixSplit` | app/components/UpcomingEvents.tsx:27 | cutting a sorted list splits its elements, and nothing in the tail is below anything in the head |
| `UpcomingEvents.FirstBy` | app/components/UpcomingEvents.tsx:23-27 | sort then take n: min(n, size) elements, sorted, a sub-multiset of the input, none above any element left out |
| `UpcomingEvents.Displayed` | app/components/UpcomingEvents.tsx:23-27 | the shown list has min(5, fetched) events, ascending by date, each from the fetched ones and none twice, none later than any dropped one |
| `UpcomingEvents.PadTwo` | app/components/UpcomingEvents.tsx:36 | `padStart(2, '0')` leaves two or more characters alone and left-fills shorter text with zeros to length 2 |
| `UpcomingEvents.FormatDay` | app/components/UpcomingEvents.tsx:33-38 | for days 1..31 the day text has 2 digits whose value is the day, with a leading '0' exactly for days 1..9 |
| `UpcomingEvents.EventsPanel.constructor` | app/components/UpcomingEvents.tsx:14-15 | no events, loading |
| `UpcomingEvents.EventsPanel.StartLoading` | app/components/UpcomingEvents.tsx:18 | the effect sets loading before its request |
| `UpcomingEvents.EventsPanel.ReceiveFeed` | app/components/UpcomingEvents.tsx:20-30 | loading is false once the fetch settles; an array body shows Displayed of it; anything else keeps the list |
| `Header.IconForCode` | app/components/Header.tsx:64-79 | Cloud iff 803..804, CloudRain iff 200..531, Sun iff neither, so every code gets exactly one icon and 800..802 gets Sun |
| `Header.WeatherIcon` | app/components/Header.tsx:59-80 | no data, no condition list or an empty one gives Sun; otherwise the first condition's code decides as IconForCode |
| `Header.Temperature` | app/components/Header.tsx:83-88 | dashes iff there is no data, no `main` or no `temp`; otherwise the reading itself |
| `Header.Seconds` | app/components/Header.tsx:32 | `getSeconds` lies in 0..59 |
| `Header.MsToNextMinute` | app/components/Header.tsx:32 | for seconds 0..59 the delay lies in 1000..60000, a whole number of seconds, and brings the seconds to a full minute |
| `Header.DelayEndsOnMinute` | app/components/Header.tsx:31-38 | from the current whole second the delay ends exactly on a minute boundary, after now and at most a minute later; measured from now itself, as the timer is set, it fires in the next minute, 0..999 ms past its start (the milliseconds now had) |
| `Header.HeaderState.constructor` | app/components/Header.tsx:14-15 | the clock starts at the given instant with no weather data |
| `Header.HeaderState.ReceiveWeather` | app/components/Header.tsx:18-26 | any response body is kept as the weather data; a failed fetch keeps the old data |
| `Header.HeaderState.Tick` | app/components/Header.tsx:30 | a tick sets the clock to the given instant |

## Left out

- Rendering, styling and every JSX branch in all three components. The
  layout-only files (`Body.tsx`, `layout.tsx`, `page.tsx`) are also left out.
- Authentication and the admin route's session gate (`lib/auth.ts`,
  `middleware.ts`, the sign-in page, `LogoutButton.tsx`, `app/admin/page.tsx`):
  they configure a third-party library that is not part of this model.
- The real Supabase query builder. The model's `Store` keeps only what the
  admin route promises; the ordering of listings is the `IsListing` predicate.
  The public route `app/api/events/route.ts` is not used by the components
  modelled here.
- The viewer's own time zone. `getTimezoneOffset`, and `setHours` applied in
  local time to a date parsed as UTC midnight, are modelled for a browser set
  to UTC. For a browser east of UTC the only difference is an unreadable
  stored time, whose deadline moves later by the browser's offset. For a
  browser west of UTC, timed and untimed deadlines fall a day early, and
  `handleAdd` also rejects today's date as a past date: `new Date(date)` is
  UTC midnight, while `chengduToday` after `setHours(0, 0, 0, 0)` is local
  midnight, which is later by the browser's offset.
  Daylight-saving shifts are not modelled.
- `Events.Deadline`: not stated for viewer time zones other than UTC,
  because that arithmetic goes through the host's `Date` implementation.
- Repeated clock reads. `isEventExpired` calls `getChengduDate()` once per
  event of the filter, and `handleAdd` calls it twice (for the date check and
  for the time check). The model takes one instant `now` per pruning pass and
  one per submission, so it does not capture a pass or a submission that
  straddles a minute or midnight.
- Concurrency and timers: the effects, the one-minute `setInterval`, stale
  `events` captured by a callback, overlapping fetches whose last completion
  wins, and the header's `setTimeout`/`setInterval`. One pruning pass is one
  sequential method. A timer firing is a plain call to `Tick`.
- Whether a DELETE or POST whose `fetch` threw reached the table. The model
  takes a thrown request as one that changed nothing.
- A POST with an empty date. It can only be sent when no time was entered,
  and the form's `required` attribute prevents it. The model treats its
  response as a failure, as the table cannot store an empty date.
- Malformed dates. `CivilDate` values are assumed to be real calendar dates,
  as the date picker produces them.
- Floating point and locale: `Math.round` of the temperature (the model
  returns the raw reading), the month names of `toLocaleString`, and the
  header's `toLocaleDateString`/`toLocaleTimeString`.
- `console.log`/`console.error`, and the debug log of the fetched list.
- The weather request itself and its API key. The response is a parameter.
- `formatDate`'s month; its day is read from the date's own day field (a UTC
  browser).
- `data.sort` sorting the fetched array in place: the model takes the sorted
  result, as the array is not used again.
