/**
 * The public list of UpcomingEvents.tsx: the fetched events sorted by date
 * (JavaScript's `Array.prototype.sort` is stable, so events of one date keep
 * their fetched order), the first five of them, and the two-digit day shown
 * for each.
 */
module UpcomingEvents {
  import opened Calendar
  import opened Decimal
  import opened Events

  /** The comparator's key: `new Date(event_date).getTime()` is the day number times a constant. */
  function Key(e: Event): int {
    DayNumber(e.date)
  }

  predicate SortedBy(s: seq<Event>, key: Event -> int) {
    forall i, j :: 0 <= i < j < |s| ==> key(s[i]) <= key(s[j])
  }

  /** Putting an element in front of a sorted list keeps it sorted when it is not above the head. */
  lemma SortedCons(a: Event, t: seq<Event>, key: Event -> int)
    requires SortedBy(t, key)
    requires t != [] ==> key(a) <= key(t[0])
    ensures SortedBy([a] + t, key)
  {
    var r := [a] + t;
    forall i, j | 0 <= i < j < |r|
      ensures key(r[i]) <= key(r[j])
    {
      if i == 0 && j > 1 {
        assert r[j] == t[j - 1];
      }
    }
  }

  /** Inserts `x` before the first element whose key is not below its own. */
  function InsertBy(x: Event, s: seq<Event>, key: Event -> int): (r: seq<Event>)
    requires SortedBy(s, key)
    ensures SortedBy(r, key)
    ensures multiset(r) == multiset(s) + multiset{x}
    ensures |r| == |s| + 1
    ensures r[0] == x || (s != [] && r[0] == s[0])
  {
    if s == [] || key(x) <= key(s[0]) then
      SortedCons(x, s, key);
      [x] + s
    else
      var rest := InsertBy(x, s[1..], key);
      assert s == [s[0]] + s[1..];
      SortedCons(s[0], rest, key);
      [s[0]] + rest
  }

  /** A stable sort by `key`: insertion of each element, from the last to the first. */
  function SortBy(s: seq<Event>, key: Event -> int): (r: seq<Event>)
    ensures SortedBy(r, key)
    ensures multiset(r) == multiset(s)
    ensures |r| == |s|
  {
    if s == [] then []
    else
      assert s == [s[0]] + s[1..];
      InsertBy(s[0], SortBy(s[1..], key), key)
  }

  /** The elements of `s` whose key is `k`, in order. */
  function WithKey(s: seq<Event>, key: Event -> int, k: int): (r: seq<Event>)
    ensures |r| <= |s|
  {
    if s == [] then []
    else (if key(s[0]) == k then [s[0]] else []) + WithKey(s[1..], key, k)
  }

  /** WithKey looks at one element at a time. */
  lemma WithKeyCons(a: Event, t: seq<Event>, key: Event -> int, k: int)
    ensures WithKey([a] + t, key, k) == (if key(a) == k then [a] else []) + WithKey(t, key, k)
  {
    assert ([a] + t)[1..] == t;
  }

  /** An element whose key is above the head's is inserted into the tail. */
  lemma InsertByPastHead(x: Event, s: seq<Event>, key: Event -> int)
    requires SortedBy(s, key) && s != [] && key(x) > key(s[0])
    ensures InsertBy(x, s, key) == [s[0]] + InsertBy(x, s[1..], key)
  {
  }

  lemma {:induction false} InsertByWithKey(x: Event, s: seq<Event>, key: Event -> int, k: int)
    requires SortedBy(s, key)
    ensures WithKey(InsertBy(x, s, key), key, k) == (if key(x) == k then [x] else []) + WithKey(s, key, k)
  {
    if s == [] || key(x) <= key(s[0]) {
      assert InsertBy(x, s, key) == [x] + s;
      WithKeyCons(x, s, key, k);
    } else {
      var rest := InsertBy(x, s[1..], key);
      InsertByPastHead(x, s, key);
      InsertByWithKey(x, s[1..], key, k);
      WithKeyCons(s[0], rest, key, k);
      assert s == [s[0]] + s[1..];
      WithKeyCons(s[0], s[1..], key, k);
      if key(x) == k {
        // x's key is above s[0]'s, so s[0] does not have key k.
        assert WithKey(s, key, k) == WithKey(s[1..], key, k);
        assert WithKey(InsertBy(x, s, key), key, k) == WithKey(rest, key, k) == [x] + WithKey(s, key, k);
      } else {
        assert WithKey(rest, key, k) == WithKey(s[1..], key, k);
        assert WithKey(InsertBy(x, s, key), key, k) == WithKey(s, key, k);
      }
    }
  }

  /** The sort is stable: the elements of any one key come out in their input order. */
  lemma {:induction false} SortByStable(s: seq<Event>, key: Event -> int, k: int)
    ensures WithKey(SortBy(s, key), key, k) == WithKey(s, key, k)
  {
    if s != [] {
      SortByStable(s[1..], key, k);
      InsertByWithKey(s[0], SortBy(s[1..], key), key, k);
    }
  }

  /** `data.sort((a, b) => date(a) - date(b))`: JavaScript's stable sort by date. */
  function SortByDate(data: seq<Event>): (sorted: seq<Event>)
    ensures SortedBy(sorted, Key)
    ensures multiset(sorted) == multiset(data)
  {
    SortBy(data, Key)
  }

  /** Events of one date keep their fetched order. */
  lemma SortByDateStable(data: seq<Event>, day: int)
    ensures WithKey(SortByDate(data), Key, day) == WithKey(data, Key, day)
  {
    SortByStable(data, Key, day);
  }

  function Min(a: int, b: int): int {
    if a <= b then a else b
  }

  /** The first `n` elements after sorting by `key`: the smallest by key, in order. */
  function FirstBy(data: seq<Event>, key: Event -> int, n: nat): (shown: seq<Event>)
    ensures |shown| == Min(n, |data|)
    ensures SortedBy(shown, key)
    ensures multiset(shown) <= multiset(data)
    ensures forall e, f :: e in shown && f in multiset(data) - multiset(shown) ==> key(e) <= key(f)
  {
    var sorted := SortBy(data, key);
    var m := Min(n, |data|);
    PrefixSplit(sorted, m, key);
    sorted[..m]
  }

  /** Cutting a sorted list leaves nothing in the tail below anything in the head. */
  lemma PrefixSplit(sorted: seq<Event>, m: nat, key: Event -> int)
    requires SortedBy(sorted, key) && m <= |sorted|
    ensures multiset(sorted[..m]) + multiset(sorted[m..]) == multiset(sorted)
    ensures forall e, f :: e in sorted[..m] && f in sorted[m..] ==> key(e) <= key(f)
  {
    assert sorted == sorted[..m] + sorted[m..];
    forall e, f | e in sorted[..m] && f in sorted[m..]
      ensures key(e) <= key(f)
    {
      var i :| 0 <= i < m && sorted[..m][i] == e;
      var j :| 0 <= j < |sorted| - m && sorted[m..][j] == f;
      assert sorted[i] == e && sorted[m + j] == f;
    }
  }

  /** `sorted.slice(0, 5)`: the events the panel shows. At most five, ascending by date,
      each taken from the fetched events and none twice, and none later than any left out. */
  function Displayed(data: seq<Event>): (shown: seq<Event>)
    ensures |shown| == Min(5, |data|)
    ensures SortedBy(shown, Key)
    ensures multiset(shown) <= multiset(data)
    ensures forall e, f :: e in shown && f in multiset(data) - multiset(shown) ==> Key(e) <= Key(f)
  {
    FirstBy(data, Key, 5)
  }

  /** `padStart(2, '0')` on a decimal string. */
  function PadTwo(s: string): (r: string)
    ensures |s| >= 2 ==> r == s
    ensures |s| < 2 ==> |r| == 2 && r[2 - |s|..] == s && forall i :: 0 <= i < 2 - |s| ==> r[i] == '0'
    decreases 2 - |s|
  {
    if |s| >= 2 then s else PadTwo("0" + s)
  }

  /** The `day` of `formatDate`: the day of the month, zero-padded to two digits. */
  function FormatDay(day: nat): (r: string)
    ensures 1 <= day <= 31 ==> |r| == 2 && AllDigits(r) && DecimalValue(r) == day
    ensures 1 <= day <= 31 ==> (r[0] == '0' <==> day <= 9)
  {
    var digits := DecimalString(day);
    var r := PadTwo(digits);
    assert 1 <= day <= 9 ==> r == "0" + digits;
    r
  }

  /** A display-list response: an array body, a body that is not an array (the route's error
      object, on which `data.sort` throws), or a failed fetch. */
  datatype FeedResponse = Rows(data: seq<Event>) | NotAnArray | FetchFailed

  class EventsPanel {
    var events: seq<Event>
    var loading: bool

    constructor ()
      ensures events == [] && loading
    {
      events, loading := [], true;
    }

    /** The effect's `setLoading(true)` before the request is sent. */
    method StartLoading()
      modifies this`loading
      ensures loading
    {
      loading := true;
    }

    /** The rest of the effect: an array body replaces the list by its first five by date;
        otherwise the error is only logged. Loading ends either way. */
    method ReceiveFeed(response: FeedResponse)
      modifies this
      ensures !loading
      ensures response.Rows? ==> events == Displayed(response.data)
      ensures !response.Rows? ==> events == old(events)
    {
      if response.Rows? {
        events := Displayed(response.data);
      }
      loading := false;
    }
  }
}
