/**
 * The checks `handleAdd` in EventAdmin.tsx makes before it posts a new event,
 * and the time text it posts.
 */
module Submission {
  import opened Optional
  import opened Calendar
  import opened ClockText
  import opened Events

  const PastDateMessage: string := "Cannot create events for past dates"
  const PastTimeMessage: string := "Cannot create events for past times"

  /** What the checks decide. `DateFormatThrows` is the uncaught RangeError that date-fns'
      `format` raises on the invalid `Date` an empty date field gives, which is only
      reached when a time was entered. */
  datatype Verdict = PastDate | PastTime | DateFormatThrows | Accepted(formattedTime: string)

  /** The time text sent to the store: the field, a space and the AM/PM choice; or nothing. */
  function FormatTime(time: string, ampm: Meridiem): (s: string)
    ensures time == "" ==> s == ""
    ensures time != "" ==> |s| == |time| + 3
    ensures time != "" ==> s[..|time|] == time && s[|time|..] == " " + MeridiemText(ampm)
  {
    if time != "" then time + " " + MeridiemText(ampm) else ""
  }

  /** The instant a same-day submission is compared with: the form's hours and minutes,
      adjusted by the AM/PM choice, on the chosen date. */
  function SubmissionInstant(date: CivilDate, c: ClockMatch, ampm: Meridiem): int {
    ClockInstant(date, To24Hour(c.hours, ampm), c.minutes)
  }

  /** The validation of `handleAdd`, on the form's date (None for the empty field), time
      text and AM/PM choice, at wall-clock instant `now`. */
  function Validate(date: Option<CivilDate>, time: string, ampm: Meridiem, now: int): (v: Verdict)
    ensures v == PastDate <==> date.Some? && DayNumber(date.value) < Today(now)
    ensures v == DateFormatThrows <==> date.None? && time != ""
    ensures v == PastTime <==>
            date.Some? && DayNumber(date.value) == Today(now) && time != ""
            && ParseFormTime(time).Some? && SubmissionInstant(date.value, ParseFormTime(time).value, ampm) <= now
    ensures v.Accepted? ==> v.formattedTime == FormatTime(time, ampm)
  {
    if date.Some? && DayNumber(date.value) < Today(now) then PastDate
    else if time != "" && date.None? then DateFormatThrows
    else if time != "" && DayNumber(date.value) == Today(now) then
      match ParseFormTime(time)
      case Some(c) =>
        if SubmissionInstant(date.value, c, ampm) <= now then PastTime
        else Accepted(FormatTime(time, ampm))
      case None => Accepted(FormatTime(time, ampm))
    else Accepted(FormatTime(time, ampm))
  }

  /**
   * An event accepted at `now`, with a time as the time input produces it (or
   * none), is not expired at that same `now` once stored: the expiry check
   * reads the stored text back to the instant the submission check compared.
   */
  lemma AcceptedEventNotExpired(id: int, date: CivilDate, title: string, time: string, ampm: Meridiem,
                                venue: string, now: int)
    requires Validate(Some(date), time, ampm, now).Accepted?
    requires time == "" || IsTimeInputValue(time)
    ensures !IsExpired(Event(id, date, title, NullIfEmpty(FormatTime(time, ampm)), NullIfEmpty(venue)), now)
  {
    var stored := NullIfEmpty(FormatTime(time, ampm));
    var day := DayNumber(date);
    if day > Today(now) {
      NotExpiredBeforeItsDay(Event(id, date, title, stored, NullIfEmpty(venue)), now);
    } else if time == "" {
      assert now < DayStart(Today(now) + 1);
    } else {
      StoredTimeReadsBack(time, ampm);
      assert stored == Some(time + " " + MeridiemText(ampm));
    }
  }
}
