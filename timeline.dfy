/**
 * The merged timeline the calendar route returns: the events of every
 * calendar of every connected account, annotated with the calendar and the
 * account, followed by the pending tasks due in the window as pseudo-events,
 * all stably sorted by effective start.
 *
 * The provider calls are inputs: for each connection, either the calendar
 * list failed or it gives, per calendar, the calendar's summary and either
 * the events it returned or a failure.
 */
module Timeline {
  import opened Types
  import opened Sorting
  import opened Seqs

  /** What a request for one calendar's events gave; items the provider omits are an empty list. */
  datatype FetchResult = Failed | Fetched(items: seq<Event>)

  datatype CalendarFetch = CalendarFetch(summary: Option<string>, result: FetchResult)

  /** What listing one account's calendars gave. */
  datatype AccountFetch = ListFailed | Listed(calendars: seq<CalendarFetch>)

  datatype Error = FetchFailed

  datatype Response = Ok(events: seq<Event>) | Err(error: Error)

  /** Thirty minutes, the length given to a task on the timeline. */
  const TaskLength: int := 30 * 60000

  // ---------------------------------------------------------------------------
  // Tasks as events

  /**
   * The row filter of the task query: pending, not hidden, due inside the
   * window (both ends included), and either without an account or owned by a
   * connected one.
   */
  predicate Materialises(t: Task, emails: seq<string>, tMin: int, tMax: int)
    ensures Materialises(t, emails, tMin, tMax) ==>
              t.dueAt.Some? && tMin <= StartMs(TaskEvent(t)) <= tMax && WellFormed(TaskEvent(t))
  {
    && t.status == Pending
    && !t.isHidden
    && t.dueAt.Some? && tMin <= t.dueAt.value <= tMax
    && (t.accountEmail == None || t.accountEmail.value in emails)
  }

  /** The pseudo-event of a task: `task-<id>`, `[Task] <title>`, from its due time to thirty minutes later. */
  function TaskEvent(t: Task): (e: Event)
    requires t.dueAt.Some?
    ensures e.isTask && e.taskId == Some(t.id)
    ensures WellFormed(e) && EndMs(e) - StartMs(e) == TaskLength && StartMs(e) == t.dueAt.value
  {
    Event(
      "task-" + NatToString(t.id),
      "[Task] " + t.title,
      t.description,
      true,
      Some(t.id),
      t.priority,
      None,
      None,
      DateTime(t.dueAt.value),
      DateTime(t.dueAt.value + TaskLength))
  }

  /** The task events of the window, in the order of the table. */
  function TaskEvents(rows: seq<Task>, emails: seq<string>, tMin: int, tMax: int): (r: seq<Event>)
    ensures forall i :: 0 <= i < |r| ==> r[i].isTask && WellFormed(r[i])
    ensures |r| <= |rows|
  {
    if rows == [] then []
    else
      var t := rows[|rows| - 1];
      TaskEvents(rows[..|rows| - 1], emails, tMin, tMax)
        + (if Materialises(t, emails, tMin, tMax) then [TaskEvent(t)] else [])
  }

  /** A task yields an event exactly when the row filter admits it, and every task event comes from such a row. */
  lemma {:induction false} TaskEventsExactly(rows: seq<Task>, emails: seq<string>, tMin: int, tMax: int, e: Event)
    ensures e in TaskEvents(rows, emails, tMin, tMax)
        <==> exists t :: t in rows && Materialises(t, emails, tMin, tMax) && e == TaskEvent(t)
    decreases |rows|
  {
    if rows != [] {
      var init := rows[..|rows| - 1];
      TaskEventsExactly(init, emails, tMin, tMax, e);
      assert rows == init + [rows[|rows| - 1]];
      if exists t :: t in rows && Materialises(t, emails, tMin, tMax) && e == TaskEvent(t) {
        var t :| t in rows && Materialises(t, emails, tMin, tMax) && e == TaskEvent(t);
        if t != rows[|rows| - 1] {
          assert t in init;
        }
      }
    }
  }

  /** A row the filter rejects adds nothing (a completed, hidden, undated or foreign task stays off the timeline). */
  lemma {:induction false} TaskEventsRejected(rows: seq<Task>, emails: seq<string>, tMin: int, tMax: int, t: Task)
    requires t.dueAt.Some?
    requires forall u :: u in rows && u.id == t.id ==> !Materialises(u, emails, tMin, tMax)
    ensures forall e :: e in TaskEvents(rows, emails, tMin, tMax) ==> e.taskId != Some(t.id)
  {
    forall e | e in TaskEvents(rows, emails, tMin, tMax) ensures e.taskId != Some(t.id) {
      TaskEventsExactly(rows, emails, tMin, tMax, e);
    }
  }

  /** Two tasks with different ids get different event ids. */
  lemma {:induction false} TaskEventIdsDistinct(a: Task, b: Task)
    requires a.dueAt.Some? && b.dueAt.Some?
    requires TaskEvent(a).id == TaskEvent(b).id
    ensures a.id == b.id
  {
    var p := "task-";
    assert TaskEvent(a).id[|p|..] == NatToString(a.id);
    assert TaskEvent(b).id[|p|..] == NatToString(b.id);
    NatToStringInjective(a.id, b.id);
  }

  /** Rows with distinct ids give task events with distinct ids. */
  lemma {:induction false} TaskEventIdsUnique(rows: seq<Task>, emails: seq<string>, tMin: int, tMax: int)
    requires forall i, j :: 0 <= i < j < |rows| ==> rows[i].id != rows[j].id
    ensures var r := TaskEvents(rows, emails, tMin, tMax);
      forall i, j :: 0 <= i < j < |r| ==> r[i].id != r[j].id
    decreases |rows|
  {
    if rows != [] {
      var init := rows[..|rows| - 1];
      var t := rows[|rows| - 1];
      TaskEventIdsUnique(init, emails, tMin, tMax);
      var prev := TaskEvents(init, emails, tMin, tMax);
      var r := TaskEvents(rows, emails, tMin, tMax);
      if Materialises(t, emails, tMin, tMax) {
        forall i | 0 <= i < |prev| ensures prev[i].id != TaskEvent(t).id {
          TaskEventsExactly(init, emails, tMin, tMax, prev[i]);
          var u :| u in init && Materialises(u, emails, tMin, tMax) && prev[i] == TaskEvent(u);
          var k :| 0 <= k < |init| && init[k] == u;
          assert rows[k] == u;
          if prev[i].id == TaskEvent(t).id {
            TaskEventIdsDistinct(u, t);
          }
        }
        assert forall i :: 0 <= i < |prev| ==> r[i] == prev[i];
      }
    }
  }

  // ---------------------------------------------------------------------------
  // Provider events

  /** A provider event tagged with the calendar it came from and the account that owns it. */
  function Annotate(e: Event, cal: CalendarFetch, email: string): (a: Event)
    ensures a.calendarName == cal.summary && a.accountEmail == Some(email)
    ensures a.(calendarName := e.calendarName, accountEmail := e.accountEmail) == e
  {
    e.(calendarName := cal.summary, accountEmail := Some(email))
  }

  /** The events of one calendar: its items annotated, or nothing when the request failed. */
  function CalendarEvents(cal: CalendarFetch, email: string): (r: seq<Event>)
    ensures cal.result.Failed? ==> r == []
    ensures cal.result.Fetched? ==> |r| == |cal.result.items|
    ensures cal.result.Fetched? ==> forall i :: 0 <= i < |r| ==> r[i] == Annotate(cal.result.items[i], cal, email)
    ensures forall e :: e in r ==> e.calendarName == cal.summary && e.accountEmail == Some(email)
  {
    match cal.result
    case Failed => []
    case Fetched(items) => seq(|items|, i requires 0 <= i < |items| => Annotate(items[i], cal, email))
  }

  /** The events of each calendar of one account, one entry per calendar, each tagged with its calendar and the account. */
  function PerCalendar(cals: seq<CalendarFetch>, email: string): (r: seq<seq<Event>>)
    ensures |r| == |cals|
    ensures forall i :: 0 <= i < |cals| ==> r[i] == CalendarEvents(cals[i], email)
    ensures forall i, e :: 0 <= i < |r| && e in r[i] ==> e.calendarName == cals[i].summary && e.accountEmail == Some(email)
  {
    seq(|cals|, i requires 0 <= i < |cals| => CalendarEvents(cals[i], email))
  }

  /** One account's contribution: the events of its calendars, calendar after calendar. */
  function AccountEvents(f: AccountFetch, email: string): (r: seq<Event>)
    ensures f.ListFailed? ==> r == []
    ensures forall e :: e in r ==> e.accountEmail == Some(email)
  {
    match f
    case ListFailed => []
    case Listed(cals) => CalendarsTagged(cals, email); Flatten(PerCalendar(cals, email))
  }

  /** Every event gathered from an account's calendars carries that account's email. */
  lemma {:induction false} CalendarsTagged(cals: seq<CalendarFetch>, email: string)
    ensures forall e :: e in Flatten(PerCalendar(cals, email)) ==> e.accountEmail == Some(email)
  {
    var per := PerCalendar(cals, email);
    forall e: Event | e in Flatten(per) ensures e.accountEmail == Some(email) {
      FlattenMemberInverse(per, e);
      var c, n :| 0 <= c < |per| && 0 <= n < |per[c]| && per[c][n] == e;
      assert e in per[c];
    }
  }

  /** The events of each connected account, one entry per connection, each tagged with that account's email. */
  function PerAccount(emails: seq<string>, fetches: seq<AccountFetch>): (r: seq<seq<Event>>)
    requires |fetches| == |emails|
    ensures |r| == |fetches|
    ensures forall i :: 0 <= i < |fetches| ==> r[i] == AccountEvents(fetches[i], emails[i])
    ensures forall i, e :: 0 <= i < |r| && e in r[i] ==> e.accountEmail == Some(emails[i])
  {
    seq(|fetches|, i requires 0 <= i < |fetches| => AccountEvents(fetches[i], emails[i]))
  }

  /** All provider events, account after account in the order of the connections. */
  function ProviderEvents(emails: seq<string>, fetches: seq<AccountFetch>): seq<Event>
    requires |fetches| == |emails|
  {
    Flatten(PerAccount(emails, fetches))
  }

  predicate AllListed(fetches: seq<AccountFetch>)
  {
    forall i :: 0 <= i < |fetches| ==> fetches[i].Listed?
  }

  /**
   * The response of the calendar route: an empty list without connections; a
   * failure when listing the calendars of some account fails; otherwise all
   * provider events followed by the task events, stably sorted by start.
   */
  function CalendarResponse(emails: seq<string>, fetches: seq<AccountFetch>, rows: seq<Task>, tMin: int, tMax: int): (r: Response)
    requires |fetches| == |emails|
    ensures emails == [] ==> r == Ok([])
    ensures r.Err? <==> emails != [] && exists i :: 0 <= i < |fetches| && fetches[i].ListFailed?
    ensures r.Ok? && emails != [] ==>
              multiset(r.events) == multiset(ProviderEvents(emails, fetches) + TaskEvents(rows, emails, tMin, tMax))
  {
    if emails == [] then Ok([])
    else if !AllListed(fetches) then Err(FetchFailed)
    else Ok(SortByStart(ProviderEvents(emails, fetches) + TaskEvents(rows, emails, tMin, tMax)))
  }

  /**
   * The account loop of the route handler: every account's calendars are
   * listed and their events appended in turn; the first failing listing
   * aborts the loop.
   */
  method CollectAccounts(emails: seq<string>, fetches: seq<AccountFetch>) returns (ok: bool, allEvents: seq<Event>)
    requires |fetches| == |emails|
    ensures ok <==> AllListed(fetches)
    ensures ok ==> allEvents == ProviderEvents(emails, fetches)
  {
    allEvents := [];
    var i := 0;
    while i < |emails|
      invariant 0 <= i <= |emails|
      invariant AllListed(fetches[..i])
      invariant allEvents == ProviderEvents(emails[..i], fetches[..i])
    {
      if fetches[i].ListFailed? {
        return false, [];
      }
      var accountEvents := PerCalendar(fetches[i].calendars, emails[i]);
      ProviderEventsSnoc(emails, fetches, i);
      allEvents := allEvents + Flatten(accountEvents);
      ListedSnoc(fetches, i);
      i := i + 1;
    }
    assert emails[..i] == emails;
    assert fetches[..i] == fetches;
    ok := true;
  }

  lemma ListedSnoc(fetches: seq<AccountFetch>, i: nat)
    requires i < |fetches| && AllListed(fetches[..i]) && fetches[i].Listed?
    ensures AllListed(fetches[..i + 1])
  {
    assert forall j :: 0 <= j < i + 1 ==> fetches[..i + 1][j] == fetches[j];
  }

  /** The route handler: the account loop concatenates, the tasks go last, then the list is sorted. */
  method MergeTimeline(emails: seq<string>, fetches: seq<AccountFetch>, rows: seq<Task>, tMin: int, tMax: int)
    returns (response: Response)
    requires |fetches| == |emails|
    ensures response == CalendarResponse(emails, fetches, rows, tMin, tMax)
  {
    if |emails| == 0 {
      return Ok([]);
    }
    var taskEvents := TaskEvents(rows, emails, tMin, tMax);
    var ok, allEvents := CollectAccounts(emails, fetches);
    if !ok {
      return Err(FetchFailed);
    }
    allEvents := allEvents + taskEvents;
    response := Ok(SortByStart(allEvents));
  }

  // ---------------------------------------------------------------------------
  // Properties of the merge

  /** Without connections the route answers with an empty list, whatever the tables hold. */
  lemma {:induction false} NoConnectionsNoEvents(fetches: seq<AccountFetch>, rows: seq<Task>, tMin: int, tMax: int)
    requires |fetches| == 0
    ensures CalendarResponse([], fetches, rows, tMin, tMax) == Ok([])
  {
  }

  /**
   * A successful response holds every provider event and every task event,
   * each as often as it was produced, ordered by start; among equal starts
   * the provider events come first, each part in its own order.
   */
  lemma {:induction false} TimelineIsSortedMerge(emails: seq<string>, fetches: seq<AccountFetch>, rows: seq<Task>, tMin: int, tMax: int)
    requires |fetches| == |emails| && emails != [] && AllListed(fetches)
    ensures CalendarResponse(emails, fetches, rows, tMin, tMax).Ok?
    ensures var r := CalendarResponse(emails, fetches, rows, tMin, tMax).events;
      var p, t := ProviderEvents(emails, fetches), TaskEvents(rows, emails, tMin, tMax);
      && multiset(r) == multiset(p) + multiset(t)
      && |r| == |p| + |t|
      && (forall i, j :: 0 <= i < j < |r| ==> StartMs(r[i]) <= StartMs(r[j]))
      && (forall k :: WithKey(r, StartKey, k) == WithKey(p, StartKey, k) + WithKey(t, StartKey, k))
  {
    var p, t := ProviderEvents(emails, fetches), TaskEvents(rows, emails, tMin, tMax);
    forall k ensures WithKey(p + t, StartKey, k) == WithKey(p, StartKey, k) + WithKey(t, StartKey, k) {
      WithKeyAppend(p, t, StartKey, k);
    }
  }

  /** A failing account listing fails the whole response, whatever the other accounts returned. */
  lemma {:induction false} ListFailureFailsAll(emails: seq<string>, fetches: seq<AccountFetch>, rows: seq<Task>, tMin: int, tMax: int, i: nat)
    requires |fetches| == |emails| && i < |fetches| && fetches[i].ListFailed?
    ensures CalendarResponse(emails, fetches, rows, tMin, tMax) == Err(FetchFailed)
  {
  }

  /** The provider events split along the connections: each account contributes its own part, in order. */
  lemma {:induction false} ProviderEventsAppend(e1: seq<string>, f1: seq<AccountFetch>, e2: seq<string>, f2: seq<AccountFetch>)
    requires |f1| == |e1| && |f2| == |e2|
    ensures ProviderEvents(e1 + e2, f1 + f2) == ProviderEvents(e1, f1) + ProviderEvents(e2, f2)
  {
    assert PerAccount(e1 + e2, f1 + f2) == PerAccount(e1, f1) + PerAccount(e2, f2);
    FlattenAppend(PerAccount(e1, f1), PerAccount(e2, f2));
  }

  /** A calendar whose request failed contributes nothing, and the account's other calendars are unaffected. */
  lemma {:induction false} FailedCalendarIsSkipped(cals: seq<CalendarFetch>, email: string, j: nat)
    requires j < |cals| && cals[j].result.Failed?
    ensures AccountEvents(Listed(cals), email) == AccountEvents(Listed(cals[..j] + cals[j + 1..]), email)
  {
    var before, after := cals[..j], cals[j + 1..];
    assert cals == before + [cals[j]] + after;
    PerCalendarAppend(before + [cals[j]], after, email);
    PerCalendarAppend(before, [cals[j]], email);
    PerCalendarAppend(before, after, email);
    assert PerCalendar([cals[j]], email) == [[]];
    FlattenSkipsEmpty(PerCalendar(before, email), PerCalendar(after, email));
  }

  lemma {:induction false} PerCalendarAppend(c1: seq<CalendarFetch>, c2: seq<CalendarFetch>, email: string)
    ensures PerCalendar(c1 + c2, email) == PerCalendar(c1, email) + PerCalendar(c2, email)
  {
  }

  /** Every provider event carries the account it was fetched for, and that account is connected. */
  lemma {:induction false} ProviderEventsTagged(emails: seq<string>, fetches: seq<AccountFetch>, e: Event)
    requires |fetches| == |emails| && e in ProviderEvents(emails, fetches)
    ensures e.accountEmail.Some? && e.accountEmail.value in emails
  {
    FlattenMemberInverse(PerAccount(emails, fetches), e);
    var k, m :| 0 <= k < |fetches| && 0 <= m < |PerAccount(emails, fetches)[k]| && PerAccount(emails, fetches)[k][m] == e;
    assert fetches[k].Listed?;
    var cals := fetches[k].calendars;
    var per := PerCalendar(cals, emails[k]);
    FlattenMemberInverse(per, e);
    var c, n :| 0 <= c < |per| && 0 <= n < |per[c]| && per[c][n] == e;
    assert e == Annotate(cals[c].result.items[n], cals[c], emails[k]);
  }

  /** One more account appends its events to those of the accounts before it. */
  lemma {:induction false} ProviderEventsSnoc(emails: seq<string>, fetches: seq<AccountFetch>, i: nat)
    requires |fetches| == |emails| && i < |fetches|
    ensures ProviderEvents(emails[..i + 1], fetches[..i + 1])
         == ProviderEvents(emails[..i], fetches[..i]) + AccountEvents(fetches[i], emails[i])
  {
    var before := PerAccount(emails[..i], fetches[..i]);
    var after := PerAccount(emails[..i + 1], fetches[..i + 1]);
    assert after == before + [AccountEvents(fetches[i], emails[i])] by {
      forall k | 0 <= k < |after| ensures after[k] == (before + [AccountEvents(fetches[i], emails[i])])[k] {
        if k < i {
          assert emails[..i + 1][k] == emails[..i][k] && fetches[..i + 1][k] == fetches[..i][k];
        }
      }
    }
    FlattenSnoc(before, AccountEvents(fetches[i], emails[i]));
  }
}
