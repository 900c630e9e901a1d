/**
 * The records the application passes around: calendar events (provider
 * events and task-derived pseudo-events alike) and task rows. Instants are
 * integer milliseconds since the epoch.
 */
module Types {
  import opened Sorting

  datatype Option<T> = None | Some(value: T)

  /**
   * One end of an event: a timed instant (`dateTime`) or an all-day date
   * (`date`, taken as its midnight). An event carries exactly one of the two
   * forms, so `dateTime || date` always has a value.
   */
  datatype When = DateTime(ms: int) | Date(ms: int)

  datatype Event = Event(
    id: string,
    summary: string,
    description: Option<string>,
    isTask: bool,
    taskId: Option<nat>,
    priority: Option<int>,
    accountEmail: Option<string>,
    calendarName: Option<string>,
    start: When,
    end: When)

  /** Effective start: `dateTime || date` of the start. */
  function StartMs(e: Event): int { e.start.ms }

  /** Effective end: `dateTime || date` of the end. */
  function EndMs(e: Event): int { e.end.ms }

  /** An event whose end is not before its start. */
  predicate WellFormed(e: Event) { StartMs(e) <= EndMs(e) }

  datatype Status = Pending | Completed

  /**
   * A row of the task table as the server returns it. A NULL column is None;
   * the two flags are stored as 1/0 and read as booleans.
   */
  datatype Task = Task(
    id: nat,
    title: string,
    description: Option<string>,
    priority: Option<int>,
    status: Status,
    dueAt: Option<int>,
    inWorkingArea: bool,
    isHidden: bool,
    accountEmail: Option<string>,
    createdAt: int)

  /**
   * `priority || 2`, used both when a task is created and when the working
   * area is ordered: a missing or zero priority counts as 2, any other is kept.
   */
  function DefaultPriority(p: Option<int>): (q: int)
    ensures q != 0
    ensures p == None || p == Some(0) ==> q == 2
    ensures p.Some? && p.value != 0 ==> q == p.value
  {
    if p == None || p == Some(0) then 2 else p.value
  }

  /** The sort key of both event orderings: `new Date(start.dateTime || start.date).getTime()`. */
  function StartKey(e: Event): Key { Key(StartMs(e), 0, 0) }

  /** `[...events].sort((a, b) => startA - startB)`: a stable sort by effective start. */
  function SortByStart(s: seq<Event>): (r: seq<Event>)
    ensures |r| == |s| && multiset(r) == multiset(s)
    ensures forall i, j :: 0 <= i < j < |r| ==> StartMs(r[i]) <= StartMs(r[j])
    ensures forall k :: WithKey(r, StartKey, k) == WithKey(s, StartKey, k)
  {
    var r := SortBy(s, StartKey);
    assert forall i, j :: 0 <= i < j < |r| ==> KeyLe(StartKey(r[i]), StartKey(r[j]));
    r
  }

  /** Decimal digits of n, as JavaScript's template literal `${n}` writes them. */
  function NatToString(n: nat): (s: string)
    ensures |s| >= 1
    ensures n >= 10 ==> |s| >= 2
    ensures forall i :: 0 <= i < |s| ==> '0' <= s[i] <= '9'
  {
    if n < 10 then [DigitChar(n)] else NatToString(n / 10) + [DigitChar(n % 10)]
  }

  function DigitChar(d: nat): (c: char)
    requires d < 10
    ensures '0' <= c <= '9'
    ensures c as int - '0' as int == d
  {
    "0123456789"[d]
  }

  /** Different numbers print differently, so `task-${id}` ids are unique. */
  lemma {:induction false} NatToStringInjective(a: nat, b: nat)
    requires NatToString(a) == NatToString(b)
    ensures a == b
    decreases a
  {
    var sa, sb := NatToString(a), NatToString(b);
    if a >= 10 && b >= 10 {
      assert sa[..|sa| - 1] == NatToString(a / 10);
      assert sb[..|sb| - 1] == NatToString(b / 10);
      NatToStringInjective(a / 10, b / 10);
      assert DigitChar(a % 10) == sa[|sa| - 1] == sb[|sb| - 1] == DigitChar(b % 10);
    } else if a < 10 && b < 10 {
      assert DigitChar(a) == sa[0] == sb[0] == DigitChar(b);
    }
  }
}
