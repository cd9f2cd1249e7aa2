/**
 * The 12-hour clock of EventAdmin.tsx: the two time patterns the component
 * matches against (`/(\d{1,2}):(\d{2})/` when a form is submitted and
 * `/(\d{1,2}):(\d{2})\s*(AM|PM)/i` when an event is checked for expiry), and
 * the rule that turns a 12-hour reading into an hour of the day.
 */
module ClockText {
  import opened Optional
  import opened Decimal

  datatype Meridiem = AM | PM

  /** The text of the AM/PM selector's two options. */
  function MeridiemText(m: Meridiem): (t: string)
    ensures |t| == 2 && t[1] == 'M'
    ensures t[0] == (if m == AM then 'A' else 'P')
  {
    if m == AM then "AM" else "PM"
  }

  /**
   * The hour after the two adjustments made in sequence on the parsed hours:
   * PM adds 12 unless the hour is 12, then AM turns 12 into 0. Parsed hours
   * may be anything from 0 to 99; for the 12-hour readings 1..12 the result
   * is an hour of the day, AM gives the morning and PM the afternoon, and
   * the hour is kept modulo 12.
   */
  function To24Hour(hours: nat, m: Meridiem): (h: nat)
    ensures 1 <= hours <= 12 ==> h <= 23
    ensures 1 <= hours <= 12 && m == AM ==> h < 12
    ensures 1 <= hours <= 12 && m == PM ==> h >= 12
    ensures h % 12 == hours % 12
  {
    var afterPm := if m == PM && hours != 12 then hours + 12 else hours;
    if m == AM && afterPm == 12 then 0 else afterPm
  }

  /** The 12-hour reading of an hour of the day: the inverse of To24Hour on 1..12. */
  function From24Hour(h: nat): (hours: nat)
    requires h <= 23
    ensures 1 <= hours <= 12
  {
    if h % 12 == 0 then 12 else h % 12
  }

  function MeridiemOf(h: nat): Meridiem {
    if h < 12 then AM else PM
  }

  /** Every hour of the day is reached by exactly the 12-hour reading From24Hour gives. */
  lemma To24HourOnto(h: nat)
    requires h <= 23
    ensures To24Hour(From24Hour(h), MeridiemOf(h)) == h
  {
  }

  /** The 24 readings (1..12, AM or PM) map one-to-one onto 0..23. */
  lemma To24HourOneToOne(hours: nat, m: Meridiem)
    requires 1 <= hours <= 12
    ensures var h := To24Hour(hours, m); From24Hour(h) == hours && MeridiemOf(h) == m
  {
  }

  // ---- the two patterns ----------------------------------------------------

  /** Which of the component's two regular expressions is being searched for. */
  datatype Pattern =
    | HoursMinutes          // /(\d{1,2}):(\d{2})/
    | HoursMinutesMeridiem  // /(\d{1,2}):(\d{2})\s*(AM|PM)/i

  /** The captured groups of a match; `meridiem` is present for HoursMinutesMeridiem only. */
  datatype ClockMatch = ClockMatch(hours: nat, minutes: nat, meridiem: Option<Meridiem>)

  /** A match and the index of the character it starts at. */
  datatype Found = Found(start: nat, clock: ClockMatch)

  /** `\s` of JavaScript regular expressions: white space and line terminators. */
  predicate IsSpace(c: char) {
    c == '\t' || c == '\n' || c == '\U{000B}' || c == '\U{000C}' || c == '\r' || c == ' '
    || c == '\U{00A0}' || c == '\U{1680}' || ('\U{2000}' <= c <= '\U{200A}')
    || c == '\U{2028}' || c == '\U{2029}' || c == '\U{202F}' || c == '\U{205F}'
    || c == '\U{3000}' || c == '\U{FEFF}'
  }

  /** `s[i..e]` spells `(\d{1,2}):(\d{2})`: one or two digits, a colon, two digits. */
  predicate HoursMinutesText(s: string, i: nat, e: nat) {
    i + 4 <= e <= i + 5 && e <= |s| && s[e - 3] == ':' && AllDigits(s[i..e - 3]) && AllDigits(s[e - 2..e])
  }

  /** The value of a one- or two-digit run. */
  lemma ShortDecimalValue(s: string)
    requires 1 <= |s| <= 2 && AllDigits(s)
    ensures DecimalValue(s) == if |s| == 1 then DigitValue(s[0]) else 10 * DigitValue(s[0]) + DigitValue(s[1])
  {
    if |s| == 2 {
      assert s[..1] == [s[0]];
      assert s[..1][..0] == [];
    } else {
      assert s[..0] == [];
    }
  }

  /** `(\d{1,2}):(\d{2})` anchored at `i`: hours, minutes and the index after the match.
      The two-digit hours are tried first; the one-digit reading can only match when the
      two-digit one does not, because then `s[i + 1]` is the colon and not a digit. */
  function HoursMinutesAt(s: string, i: nat): (r: Option<(nat, nat, nat)>)
    ensures r.Some? ==> r.value.0 <= 99 && r.value.1 <= 99 && i + 4 <= r.value.2 <= i + 5 <= |s| + 1
    ensures r.Some? ==> r.value.2 <= |s|
  {

    if i + 5 <= |s| && IsDigit(s[i]) && IsDigit(s[i + 1]) && s[i + 2] == ':'
       && IsDigit(s[i + 3]) && IsDigit(s[i + 4])
    then Some((10 * DigitValue(s[i]) + DigitValue(s[i + 1]),
               10 * DigitValue(s[i + 3]) + DigitValue(s[i + 4]), i + 5))
    else if i + 4 <= |s| && IsDigit(s[i]) && s[i + 1] == ':'
       && IsDigit(s[i + 2]) && IsDigit(s[i + 3])
    then Some((DigitValue(s[i]), 10 * DigitValue(s[i + 2]) + DigitValue(s[i + 3]), i + 4))
    else None
  }

  /** The character tests HoursMinutesAt makes are those of HoursMinutesText, and the
      values it computes are those of the digit runs. */
  lemma HoursMinutesShapes(s: string, i: nat)
    ensures HoursMinutesText(s, i, i + 5) <==>
            i + 5 <= |s| && IsDigit(s[i]) && IsDigit(s[i + 1]) && s[i + 2] == ':' && IsDigit(s[i + 3]) && IsDigit(s[i + 4])
    ensures HoursMinutesText(s, i, i + 4) <==>
            i + 4 <= |s| && IsDigit(s[i]) && s[i + 1] == ':' && IsDigit(s[i + 2]) && IsDigit(s[i + 3])
    ensures HoursMinutesText(s, i, i + 5) ==>
            DecimalValue(s[i..i + 2]) == 10 * DigitValue(s[i]) + DigitValue(s[i + 1])
            && DecimalValue(s[i + 3..i + 5]) == 10 * DigitValue(s[i + 3]) + DigitValue(s[i + 4])
    ensures HoursMinutesText(s, i, i + 4) ==>
            DecimalValue(s[i..i + 1]) == DigitValue(s[i])
            && DecimalValue(s[i + 2..i + 4]) == 10 * DigitValue(s[i + 2]) + DigitValue(s[i + 3])
  {
    if i + 5 <= |s| {
      assert s[i..i + 2] == [s[i], s[i + 1]];
      assert s[i + 3..i + 5] == [s[i + 3], s[i + 4]];
      if HoursMinutesText(s, i, i + 5) {
        ShortDecimalValue(s[i..i + 2]);
        ShortDecimalValue(s[i + 3..i + 5]);
      }
    }
    if i + 4 <= |s| {
      assert s[i..i + 1] == [s[i]];
      assert s[i + 2..i + 4] == [s[i + 2], s[i + 3]];
      if HoursMinutesText(s, i, i + 4) {
        ShortDecimalValue(s[i..i + 1]);
        ShortDecimalValue(s[i + 2..i + 4]);
      }
    }
  }

  /** The anchored match exists iff the text there spells the pattern; it is the longest
      such text, and its captures are the decimal values of the two digit runs. */
  lemma HoursMinutesAtCaptures(s: string, i: nat)
    ensures HoursMinutesAt(s, i).Some? <==> HoursMinutesText(s, i, i + 5) || HoursMinutesText(s, i, i + 4)
    ensures HoursMinutesAt(s, i).Some? ==>
              var (hours, minutes, e) := HoursMinutesAt(s, i).value;
              && e == (if HoursMinutesText(s, i, i + 5) then i + 5 else i + 4)
              && HoursMinutesText(s, i, e)
              && hours == DecimalValue(s[i..e - 3])
              && minutes == DecimalValue(s[e - 2..e])
  {
    HoursMinutesShapes(s, i);
  }

  /** `\s*`: the first index at or after `j` that is not white space. */
  function SkipSpace(s: string, j: nat): (k: nat)
    requires j <= |s|
    ensures j <= k <= |s|
    ensures forall n :: j <= n < k ==> IsSpace(s[n])
    ensures k < |s| ==> !IsSpace(s[k])
    decreases |s| - j
  {
    if j < |s| && IsSpace(s[j]) then SkipSpace(s, j + 1) else j
  }

  /** The case folding of a pattern without the `u` flag, as far as `AM|PM` can see it:
      a character matches the letters A, M and P only if it is that letter in either case. */
  function UpperAscii(c: char): (u: char)
    ensures 'a' <= c <= 'z' ==> u as int == c as int - 32
    ensures !('a' <= c <= 'z') ==> u == c
  {
    if 'a' <= c <= 'z' then (c as int - 32) as char else c
  }

  /** The two characters at `k`, folded to upper case, spell the selector text of `m`. */
  predicate SpellsMeridiem(s: string, k: nat, m: Meridiem) {
    k + 2 <= |s| && [UpperAscii(s[k]), UpperAscii(s[k + 1])] == MeridiemText(m)
  }

  /** `(AM|PM)` under the `i` flag, anchored at `k`: only ASCII letters fold case. */
  function MeridiemAt(s: string, k: nat): Option<Meridiem> {
    if k + 2 <= |s| && (s[k + 1] == 'M' || s[k + 1] == 'm') then
      if s[k] == 'A' || s[k] == 'a' then Some(AM)
      else if s[k] == 'P' || s[k] == 'p' then Some(PM)
      else None
    else None
  }

  /** The pattern anchored at index `i`. As `AM|PM` cannot begin with white space,
      backtracking into `\s*` never finds another match. */
  function MatchAt(p: Pattern, s: string, i: nat): (r: Option<ClockMatch>)
    ensures r.Some? ==> r.value.hours <= 99 && r.value.minutes <= 99
    ensures r.Some? ==> (r.value.meridiem.Some? <==> p == HoursMinutesMeridiem)
  {
    match HoursMinutesAt(s, i)
    case None => None
    case Some((hours, minutes, end)) =>
      match p
      case HoursMinutes => Some(ClockMatch(hours, minutes, None))
      case HoursMinutesMeridiem =>
        match MeridiemAt(s, SkipSpace(s, end))
        case Some(m) => Some(ClockMatch(hours, minutes, Some(m)))
        case None => None
  }

  /** The meridiem found is the one whose selector text the two characters spell once
      folded to upper case; none is found when they spell neither. */
  lemma MeridiemAtFolds(s: string, k: nat)
    ensures MeridiemAt(s, k).Some? ==> SpellsMeridiem(s, k, MeridiemAt(s, k).value)
    ensures MeridiemAt(s, k).None? ==> !SpellsMeridiem(s, k, AM) && !SpellsMeridiem(s, k, PM)
  {
  }

  /**
   * What an anchored match of either pattern reads from the text: it exists iff the
   * text at `i` spells `(\d{1,2}):(\d{2})` (taking two hour digits when it can) and, for
   * the expiry pattern, the first characters after the white space spell AM or PM in
   * either case; its hours and minutes are the values of the two digit runs, and its
   * meridiem is the one spelled.
   */
  lemma MatchAtCaptures(p: Pattern, s: string, i: nat)
    ensures var e := if HoursMinutesText(s, i, i + 5) then i + 5 else i + 4;
            MatchAt(p, s, i).Some? <==>
              HoursMinutesText(s, i, e)
              && (p == HoursMinutesMeridiem ==>
                    SpellsMeridiem(s, SkipSpace(s, e), AM) || SpellsMeridiem(s, SkipSpace(s, e), PM))
    ensures MatchAt(p, s, i).Some? ==>
              var c := MatchAt(p, s, i).value;
              var e := if HoursMinutesText(s, i, i + 5) then i + 5 else i + 4;
              && HoursMinutesText(s, i, e)
              && c.hours == DecimalValue(s[i..e - 3])
              && c.minutes == DecimalValue(s[e - 2..e])
              && (p == HoursMinutesMeridiem ==> SpellsMeridiem(s, SkipSpace(s, e), c.meridiem.value))
  {
    HoursMinutesAtCaptures(s, i);
    if HoursMinutesAt(s, i).Some? {
      MeridiemAtFolds(s, SkipSpace(s, HoursMinutesAt(s, i).value.2));
    }
  }

  /** `String.prototype.match` with a non-global pattern, searching from index `i`:
      the leftmost index at which the pattern matches. */
  function Search(p: Pattern, s: string, i: nat): (r: Option<Found>)
    requires i <= |s|
    ensures r.Some? ==> i <= r.value.start < |s| && MatchAt(p, s, r.value.start) == Some(r.value.clock)
    ensures r.Some? ==> forall j :: i <= j < r.value.start ==> MatchAt(p, s, j).None?
    ensures r.None? ==> forall j :: i <= j < |s| ==> MatchAt(p, s, j).None?
    decreases |s| - i
  {
    if i == |s| then None
    else
      match MatchAt(p, s, i)
      case Some(c) => Some(Found(i, c))
      case None => Search(p, s, i + 1)
  }

  /** The match taken for the form's time field on submission: the leftmost one. */
  function ParseFormTime(t: string): (r: Option<ClockMatch>)
    ensures r.Some? ==> r.value.meridiem.None? && r.value.hours <= 99 && r.value.minutes <= 99
    ensures r.Some? <==> exists j :: 0 <= j < |t| && MatchAt(HoursMinutes, t, j).Some?
    ensures r.Some? ==> exists j :: 0 <= j < |t| && MatchAt(HoursMinutes, t, j) == Some(r.value) &&
                                   forall k :: 0 <= k < j ==> MatchAt(HoursMinutes, t, k).None?
  {
    match Search(HoursMinutes, t, 0)
    case Some(f) => Some(f.clock)
    case None => None
  }

  /** The match taken for an event's stored time when its expiry is checked: the leftmost one. */
  function ParseStoredTime(t: string): (r: Option<ClockMatch>)
    ensures r.Some? ==> r.value.meridiem.Some? && r.value.hours <= 99 && r.value.minutes <= 99
    ensures r.Some? <==> exists j :: 0 <= j < |t| && MatchAt(HoursMinutesMeridiem, t, j).Some?
    ensures r.Some? ==> exists j :: 0 <= j < |t| && MatchAt(HoursMinutesMeridiem, t, j) == Some(r.value) &&
                                   forall k :: 0 <= k < j ==> MatchAt(HoursMinutesMeridiem, t, k).None?
  {
    match Search(HoursMinutesMeridiem, t, 0)
    case Some(f) => Some(f.clock)
    case None => None
  }

  /** The value of an `<input type="time">` with minute precision: `HH:MM`. */
  predicate IsTimeInputValue(t: string) {
    |t| == 5 && IsDigit(t[0]) && IsDigit(t[1]) && t[2] == ':' && IsDigit(t[3]) && IsDigit(t[4])
  }

  /**
   * A time input value with the selector's AM/PM appended, as the component
   * stores it, is read back at expiry with the same hours and minutes that the
   * submission check read, and with the selector's meridiem.
   */
  lemma StoredTimeReadsBack(t: string, m: Meridiem)
    requires IsTimeInputValue(t)
    ensures ParseFormTime(t).Some?
    ensures var c := ParseFormTime(t).value;
            ParseStoredTime(t + " " + MeridiemText(m)) == Some(ClockMatch(c.hours, c.minutes, Some(m)))
  {
    var s := t + " " + MeridiemText(m);
    assert MatchAt(HoursMinutes, t, 0).Some?;
    assert s[..5] == t && s[5] == ' ' && s[6..] == MeridiemText(m);
    assert SkipSpace(s, 6) == 6;
    assert SkipSpace(s, 5) == 6;
    assert MatchAt(HoursMinutesMeridiem, s, 0) == Some(MatchAt(HoursMinutes, t, 0).value.(meridiem := Some(m)));
  }

  /** A time input value `HH:MM` is read on submission as the decimal values of its two
      digit pairs, and, with the selector's AM/PM appended, at expiry as the same values
      with that meridiem. */
  lemma TimeInputValues(t: string, m: Meridiem)
    requires IsTimeInputValue(t)
    ensures ParseFormTime(t) == Some(ClockMatch(DecimalValue(t[..2]), DecimalValue(t[3..5]), None))
    ensures ParseStoredTime(t + " " + MeridiemText(m)) == Some(ClockMatch(DecimalValue(t[..2]), DecimalValue(t[3..5]), Some(m)))
  {
    HoursMinutesAtCaptures(t, 0);
    assert HoursMinutesText(t, 0, 5);
    assert t[0..2] == t[..2];
    StoredTimeReadsBack(t, m);
  }
}
