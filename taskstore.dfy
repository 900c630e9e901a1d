/**
 * The server's tables as an in-memory store: the task table keyed by its
 * auto-increment id, the connected accounts in table order, and the log of
 * completed Pomodoro sessions. The route handlers become methods of the store
 * and the queries become functions of its state.
 */
module TaskStore {
  import opened Types
  import opened Sorting
  import opened Seqs
  import Timeline

  /** The constraint a statement violated: the NOT NULL title, or the session log's key into the task table. */
  datatype StoreError = TitleRequired | ForeignKeyFailed

  datatype Result<T> = Ok(value: T) | Err(error: StoreError)

  // ---------------------------------------------------------------------------
  // Reading the task table

  /** The rows whose id is below n, in id order: the order a scan of the table returns them in. */
  function Scan(tasks: map<nat, Task>, n: nat): (rows: seq<Task>)
    ensures |rows| <= n
  {
    if n == 0 then []
    else Scan(tasks, n - 1) + (if n - 1 in tasks then [tasks[n - 1]] else [])
  }

  /** Every row's id is its key. */
  ghost predicate KeyedById(tasks: map<nat, Task>)
  {
    forall id :: id in tasks ==> tasks[id].id == id
  }

  /** A scan returns exactly the rows stored under an id below n, in increasing id order. */
  lemma {:induction false} ScanExactly(tasks: map<nat, Task>, n: nat)
    requires KeyedById(tasks)
    ensures forall t :: t in Scan(tasks, n) <==> t.id in tasks && t.id < n && tasks[t.id] == t
    ensures forall i, j :: 0 <= i < j < |Scan(tasks, n)| ==> Scan(tasks, n)[i].id < Scan(tasks, n)[j].id
    decreases n
  {
    if n > 0 {
      ScanExactly(tasks, n - 1);
      var prev := Scan(tasks, n - 1);
      var r := Scan(tasks, n);
      forall i | 0 <= i < |prev| ensures r[i] == prev[i] && prev[i].id < n - 1 {
        assert prev[i] in prev;
      }
    }
  }


  /** `x || null` for an email: a missing or empty email is stored as NULL. */
  function NullIfEmpty(s: Option<string>): (r: Option<string>)
    ensures r != Some("")
    ensures s == None || s == Some("") ==> r == None
    ensures s.Some? && s.value != "" ==> r == s
  {
    if s == Some("") then None else s
  }

  /**
   * The order of the task list: priority ascending with NULL first, as
   * SQLite sorts it, then creation time descending, newest first.
   */
  function ListKey(t: Task): Key
  {
    match t.priority
    case None => Key(0, 0, -t.createdAt)
    case Some(p) => Key(1, p, -t.createdAt)
  }

  /** The row filter of the task list: pending, and without an account or owned by a connected one. */
  predicate Listed(t: Task, connections: seq<string>)
  {
    t.status == Pending && (t.accountEmail == None || t.accountEmail.value in connections)
  }

  function Filter(rows: seq<Task>, connections: seq<string>): (r: seq<Task>)
    ensures forall t :: t in r <==> t in rows && Listed(t, connections)
  {
    if rows == [] then []
    else
      assert rows == [rows[0]] + rows[1..];
      (if Listed(rows[0], connections) then [rows[0]] else []) + Filter(rows[1..], connections)
  }

  /** The task list: nothing without connections, else the listed rows in list order. */
  function Listing(tasks: map<nat, Task>, n: nat, connections: seq<string>): (r: seq<Task>)
    ensures connections == [] ==> r == []
    ensures forall i, j :: 0 <= i < j < |r| ==> KeyLe(ListKey(r[i]), ListKey(r[j]))
  {
    if connections == [] then [] else SortBy(Filter(Scan(tasks, n), connections), ListKey)
  }

  /** Without connections the list is empty; otherwise it holds exactly the stored rows that pass the filter. */
  lemma {:induction false} ListingExactly(tasks: map<nat, Task>, n: nat, connections: seq<string>)
    requires KeyedById(tasks)
    ensures connections == [] ==> Listing(tasks, n, connections) == []
    ensures connections != [] ==> forall t :: t in Listing(tasks, n, connections) <==>
              (t.id in tasks && t.id < n && tasks[t.id] == t && Listed(t, connections))
  {
    ScanExactly(tasks, n);
    if connections != [] {
      var f := Filter(Scan(tasks, n), connections);
      var r := SortBy(f, ListKey);
      assert forall t :: t in r <==> t in multiset(r);
      assert forall t :: t in f <==> t in multiset(f);
    }
  }

  /** The list is ordered: NULL priorities first, then ascending priority, and newest first among equal priorities. */
  lemma {:induction false} ListingOrdered(tasks: map<nat, Task>, n: nat, connections: seq<string>, i: nat, j: nat)
    requires i < j < |Listing(tasks, n, connections)|
    ensures var a, b := Listing(tasks, n, connections)[i], Listing(tasks, n, connections)[j];
      && (b.priority == None ==> a.priority == None)
      && (a.priority.Some? && b.priority.Some? ==> a.priority.value <= b.priority.value)
      && (a.priority == b.priority ==> a.createdAt >= b.createdAt)
  {
  }

  // ---------------------------------------------------------------------------
  // PATCH

  /** The fields of a PATCH body; None is a field the body leaves out. */
  datatype Patch = Patch(
    status: Option<Status>,
    priority: Option<int>,
    title: Option<string>,
    description: Option<string>,
    dueAt: Option<int>,
    inWorkingArea: Option<bool>,
    isHidden: Option<bool>)

  /** The field groups a PATCH can change, one per branch of the handler. */
  datatype Group = StatusGroup | WorkingAreaGroup | HiddenGroup | DetailsGroup

  /** The first present field in the order status, in_working_area, is_hidden picks the group; otherwise the details. */
  function GroupOf(p: Patch): (g: Group)
    ensures g == StatusGroup <==> p.status.Some?
    ensures g == WorkingAreaGroup <==> p.status == None && p.inWorkingArea.Some?
    ensures g == HiddenGroup <==> p.status == None && p.inWorkingArea == None && p.isHidden.Some?
    ensures g == DetailsGroup <==> p.status == None && p.inWorkingArea == None && p.isHidden == None
  {
    if p.status.Some? then StatusGroup
    else if p.inWorkingArea.Some? then WorkingAreaGroup
    else if p.isHidden.Some? then HiddenGroup
    else DetailsGroup
  }

  /** r differs from t at most in the fields of group g (the id and the creation time never change). */
  predicate OnlyGroupChanged(t: Task, r: Task, g: Group)
  {
    && r.id == t.id && r.createdAt == t.createdAt && r.accountEmail == t.accountEmail
    && (g != StatusGroup ==> r.status == t.status)
    && (g != WorkingAreaGroup ==> r.inWorkingArea == t.inWorkingArea)
    && (g != HiddenGroup ==> r.isHidden == t.isHidden)
    && (g != DetailsGroup ==> r.priority == t.priority && r.title == t.title
                              && r.description == t.description && r.dueAt == t.dueAt)
  }

  /**
   * The row after the handler's UPDATE as written: the details branch writes
   * all four columns from the body, an absent one as NULL, so a body without
   * a title violates the NOT NULL constraint of the title column.
   */
  function PatchAsWritten(t: Task, p: Patch): (r: Result<Task>)
    ensures r.Err? <==> GroupOf(p) == DetailsGroup && p.title == None
    ensures r.Ok? ==> OnlyGroupChanged(t, r.value, GroupOf(p))
  {
    match GroupOf(p)
    case StatusGroup => Ok(t.(status := p.status.value))
    case WorkingAreaGroup => Ok(t.(inWorkingArea := p.inWorkingArea.value))
    case HiddenGroup => Ok(t.(isHidden := p.isHidden.value))
    case DetailsGroup =>
      if p.title == None then Err(TitleRequired)
      else Ok(t.(priority := p.priority, title := p.title.value, description := p.description, dueAt := p.dueAt))
  }

  function Or<T>(x: Option<T>, fallback: T): T
  {
    if x.Some? then x.value else fallback
  }

  /** The row after a PATCH as the client uses it: the details branch writes only the fields the body carries. */
  function PatchRow(t: Task, p: Patch): (r: Task)
    ensures OnlyGroupChanged(t, r, GroupOf(p))
  {
    match GroupOf(p)
    case StatusGroup => t.(status := p.status.value)
    case WorkingAreaGroup => t.(inWorkingArea := p.inWorkingArea.value)
    case HiddenGroup => t.(isHidden := p.isHidden.value)
    case DetailsGroup =>
      t.(priority := if p.priority.Some? then p.priority else t.priority,
         title := Or(p.title, t.title),
         description := if p.description.Some? then p.description else t.description,
         dueAt := if p.dueAt.Some? then p.dueAt else t.dueAt)
  }

  /** A field of a higher-precedence group shadows every field below it. */
  lemma {:induction false} PatchPrecedence(t: Task, p: Patch)
    ensures p.status.Some? ==>
      PatchRow(t, p) == PatchRow(t, Patch(p.status, None, None, None, None, None, None))
    ensures p.status == None && p.inWorkingArea.Some? ==>
      PatchRow(t, p) == PatchRow(t, Patch(None, None, None, None, None, p.inWorkingArea, None))
    ensures p.status == None && p.inWorkingArea == None && p.isHidden.Some? ==>
      PatchRow(t, p) == PatchRow(t, Patch(None, None, None, None, None, None, p.isHidden))
  {
  }

  /** The values a patch writes are those of the body. */
  lemma {:induction false} PatchWritesBody(t: Task, p: Patch)
    ensures p.status.Some? ==> PatchRow(t, p).status == p.status.value
    ensures GroupOf(p) == WorkingAreaGroup ==> PatchRow(t, p).inWorkingArea == p.inWorkingArea.value
    ensures GroupOf(p) == HiddenGroup ==> PatchRow(t, p).isHidden == p.isHidden.value
    ensures GroupOf(p) == DetailsGroup ==>
      && (p.priority.Some? ==> PatchRow(t, p).priority == p.priority)
      && (p.title.Some? ==> PatchRow(t, p).title == p.title.value)
      && (p.description.Some? ==> PatchRow(t, p).description == p.description)
      && (p.dueAt.Some? ==> PatchRow(t, p).dueAt == p.dueAt)
  {
  }

  /** Sending the same PATCH twice has the effect of sending it once. */
  lemma {:induction false} PatchIdempotent(t: Task, p: Patch)
    ensures PatchRow(PatchRow(t, p), p) == PatchRow(t, p)
  {
  }

  /** Where the handler as written succeeds and the body carries every details field, both readings agree. */
  lemma {:induction false} PatchAgreesWhenComplete(t: Task, p: Patch)
    requires GroupOf(p) != DetailsGroup || (p.priority.Some? && p.title.Some? && p.description.Some? && p.dueAt.Some?)
    ensures PatchAsWritten(t, p) == Ok(PatchRow(t, p))
  {
  }

  /** The body the priority picker sends: only a priority. */
  function PriorityPatch(n: int): Patch
  {
    Patch(None, Some(n), None, None, None, None, None)
  }

  /** As written, the priority picker's request fails and leaves the row as it was. */
  lemma {:induction false} PriorityPatchRejectedAsWritten(t: Task, n: int)
    ensures PatchAsWritten(t, PriorityPatch(n)) == Err(TitleRequired)
  {
  }

  /** With the details branch writing only the fields present, the picker's request sets the priority and nothing else. */
  lemma {:induction false} PriorityPatchSetsPriority(t: Task, n: int)
    ensures PatchRow(t, PriorityPatch(n)) == t.(priority := Some(n))
  {
  }

  // ---------------------------------------------------------------------------
  // The store

  /** One row of the Pomodoro session log. */
  datatype SessionRow = SessionRow(taskId: Option<nat>, duration: int, kind: string)

  /** Some logged session refers to task id. */
  predicate Referenced(sessions: seq<SessionRow>, id: nat)
  {
    exists i :: 0 <= i < |sessions| && sessions[i].taskId == Some(id)
  }

  /** `task_id || null`: a missing or zero task id is stored as NULL. */
  function SessionTask(taskId: Option<nat>): (r: Option<nat>)
    ensures r != Some(0)
    ensures taskId == None || taskId == Some(0) ==> r == None
    ensures taskId.Some? && taskId.value != 0 ==> r == taskId
  {
    if taskId == Some(0) then None else taskId
  }

  class Store {
    var tasks: map<nat, Task>
    var nextId: nat
    var connections: seq<string>
    var sessions: seq<SessionRow>

    /**
     * Ids are positive, below the next id to hand out, and equal to their
     * keys; an account is connected at most once; every session that names a
     * task names a stored one (the enforced foreign key of the session log).
     */
    ghost predicate Valid()
      reads this
    {
      && nextId >= 1
      && KeyedById(tasks)
      && (forall id :: id in tasks ==> 0 < id < nextId)
      && NoDuplicates(connections)
      && (forall i :: 0 <= i < |sessions| && sessions[i].taskId.Some? ==> sessions[i].taskId.value in tasks)
    }

    constructor ()
      ensures Valid()
      ensures tasks == map[] && nextId == 1 && connections == [] && sessions == []
    {
      tasks := map[];
      nextId := 1;
      connections := [];
      sessions := [];
    }

    /** The auth status: authenticated while any account is connected. */
    function IsAuthenticated(): (b: bool)
      reads this
      ensures b <==> |connections| > 0
    {
      |connections| > 0
    }

    /** The task table in id order. */
    function Rows(): seq<Task>
      reads this
    {
      Scan(tasks, nextId)
    }

    /** GET of the task list. */
    function ListTasks(): (r: seq<Task>)
      reads this
      ensures connections == [] ==> r == []
      ensures forall i, j :: 0 <= i < j < |r| ==> KeyLe(ListKey(r[i]), ListKey(r[j]))
      ensures forall t :: t in r ==> Listed(t, connections)
    {
      var r := Listing(tasks, nextId, connections);
      assert forall t :: t in r ==> t in multiset(r);
      r
    }

    /**
     * POST of a task: a new row under a fresh id with the defaults of the
     * handler and the table, or a failure without a title.
     */
    method Create(title: Option<string>, description: Option<string>, priority: Option<int>,
                  dueAt: Option<int>, accountEmail: Option<string>, now: int)
      returns (r: Result<nat>)
      requires Valid()
      modifies this
      ensures Valid()
      ensures title == None ==> r.Err? && unchanged(this)
      ensures title.Some? ==> r == Ok(old(nextId)) && r.value !in old(tasks)
      ensures title.Some? ==> tasks == old(tasks)[r.value := Task(
        r.value, title.value, description, Some(DefaultPriority(priority)), Pending,
        dueAt, false, false, NullIfEmpty(accountEmail), now)]
      ensures title.Some? ==> nextId == old(nextId) + 1
      ensures connections == old(connections) && sessions == old(sessions)
    {
      if title == None {
        return Err(TitleRequired);
      }
      var id := nextId;
      var row := Task(id, title.value, description, Some(DefaultPriority(priority)), Pending,
                      dueAt, false, false, NullIfEmpty(accountEmail), now);
      tasks := tasks[id := row];
      nextId := nextId + 1;
      r := Ok(id);
    }

    /**
     * PATCH of a task with the corrected details branch: the row under id, if
     * any, takes PatchRow; other rows are untouched.
     */
    method Update(id: nat, p: Patch)
      requires Valid()
      modifies this
      ensures Valid()
      ensures id in old(tasks) ==> tasks == old(tasks)[id := PatchRow(old(tasks)[id], p)]
      ensures id !in old(tasks) ==> tasks == old(tasks)
      ensures nextId == old(nextId) && connections == old(connections) && sessions == old(sessions)
    {
      if id in tasks {
        tasks := tasks[id := PatchRow(tasks[id], p)];
      }
    }

    /**
     * PATCH of a task as the handler runs it: the row under id takes
     * PatchAsWritten, and when that fails on the NOT NULL title the statement
     * fails and no row changes. An id with no row matches nothing and succeeds.
     */
    method UpdateAsWritten(id: nat, p: Patch) returns (r: Result<()>)
      requires Valid()
      modifies this
      ensures Valid()
      ensures r.Err? <==> id in old(tasks) && PatchAsWritten(old(tasks)[id], p).Err?
      ensures id in old(tasks) && r.Ok? ==> tasks == old(tasks)[id := PatchAsWritten(old(tasks)[id], p).value]
      ensures id !in old(tasks) || r.Err? ==> tasks == old(tasks)
      ensures nextId == old(nextId) && connections == old(connections) && sessions == old(sessions)
    {
      r := Ok(());
      if id in tasks {
        var row := PatchAsWritten(tasks[id], p);
        if row.Err? {
          r := Err(row.error);
        } else {
          tasks := tasks[id := row.value];
        }
      }
    }

    /**
     * DELETE of a task: exactly that row goes, unless a logged session
     * refers to it; then the foreign key fails the statement and nothing
     * changes.
     */
    method Delete(id: nat) returns (r: Result<()>)
      requires Valid()
      modifies this
      ensures Valid()
      ensures r.Err? <==> Referenced(old(sessions), id)
      ensures r.Err? ==> r.error == ForeignKeyFailed && tasks == old(tasks)
      ensures r.Ok? ==> tasks == old(tasks) - {id}
      ensures nextId == old(nextId) && connections == old(connections) && sessions == old(sessions)
    {
      if exists i :: 0 <= i < |sessions| && sessions[i].taskId == Some(id) {
        return Err(ForeignKeyFailed);
      }
      tasks := tasks - {id};
      r := Ok(());
    }

    /** The OAuth callback's INSERT OR REPLACE: the account ends up connected once, as the newest row. */
    method Connect(email: string)
      requires Valid()
      modifies this
      ensures Valid()
      ensures connections == Without(old(connections), email) + [email]
      ensures tasks == old(tasks) && nextId == old(nextId) && sessions == old(sessions)
    {
      var kept := Without(connections, email);
      WithoutKeepsNoDuplicates(connections, email);
      connections := kept + [email];
    }

    /** DELETE of a connection: that account goes, the others stay in order. */
    method Disconnect(email: string)
      requires Valid()
      modifies this
      ensures Valid()
      ensures connections == Without(old(connections), email)
      ensures tasks == old(tasks) && nextId == old(nextId) && sessions == old(sessions)
    {
      WithoutKeepsNoDuplicates(connections, email);
      connections := Without(connections, email);
    }

    /** Logout removes every connection. */
    method Logout()
      requires Valid()
      modifies this
      ensures Valid()
      ensures connections == []
      ensures tasks == old(tasks) && nextId == old(nextId) && sessions == old(sessions)
    {
      connections := [];
    }

    /**
     * POST of a Pomodoro session: appended to the log, with a falsy task id
     * stored as NULL; a task id with no row fails the foreign key and the
     * log is unchanged.
     */
    method RecordSession(taskId: Option<nat>, duration: int, kind: string) returns (r: Result<()>)
      requires Valid()
      modifies this
      ensures Valid()
      ensures r.Err? <==> SessionTask(taskId).Some? && SessionTask(taskId).value !in old(tasks)
      ensures r.Err? ==> r.error == ForeignKeyFailed && sessions == old(sessions)
      ensures r.Ok? ==> sessions == old(sessions) + [SessionRow(SessionTask(taskId), duration, kind)]
      ensures tasks == old(tasks) && nextId == old(nextId) && connections == old(connections)
    {
      var stored := SessionTask(taskId);
      if stored.Some? && stored.value !in tasks {
        return Err(ForeignKeyFailed);
      }
      sessions := sessions + [SessionRow(stored, duration, kind)];
      r := Ok(());
    }

    /** GET of the calendar events, given what the provider answered for each connection. */
    method CalendarEvents(fetches: seq<Timeline.AccountFetch>, tMin: int, tMax: int) returns (r: Timeline.Response)
      requires |fetches| == |connections|
      ensures r == Timeline.CalendarResponse(connections, fetches, Rows(), tMin, tMax)
    {
      r := Timeline.MergeTimeline(connections, fetches, Scan(tasks, nextId), tMin, tMax);
    }
  }

  /** Removing an element keeps a list free of duplicates. */
  lemma {:induction false} WithoutKeepsNoDuplicates(s: seq<string>, x: string)
    requires NoDuplicates(s)
    ensures NoDuplicates(Without(s, x))
    decreases |s|
  {
    if s != [] {
      WithoutKeepsNoDuplicates(s[1..], x);
      var r := Without(s[1..], x);
      assert s[0] !in s[1..];
      assert multiset(r)[s[0]] == 0;
      if s[0] != x {
        var w := [s[0]] + r;
        forall i, j | 0 <= i < j < |w| ensures w[i] != w[j] {
          if i == 0 {
            assert w[j] in r;
          }
        }
      }
    }
  }

  /** The task events built from the store's rows have distinct ids. */
  lemma {:induction false} TaskEventIdsUniqueInStore(tasks: map<nat, Task>, n: nat, emails: seq<string>, tMin: int, tMax: int)
    requires KeyedById(tasks)
    ensures var r := Timeline.TaskEvents(Scan(tasks, n), emails, tMin, tMax);
      forall i, j :: 0 <= i < j < |r| ==> r[i].id != r[j].id
  {
    ScanExactly(tasks, n);
    Timeline.TaskEventIdsUnique(Scan(tasks, n), emails, tMin, tMax);
  }

  /**
   * A task with Pomodoro history cannot be deleted: the first task of a new
   * store gets a logged work session, and its DELETE then fails, keeping the row.
   */
  method DeleteWithHistoryFails() returns (created: Result<nat>, logged: Result<()>, deleted: Result<()>, kept: bool)
    ensures created == Ok(1) && logged.Ok?
    ensures deleted == Err(ForeignKeyFailed) && kept
  {
    var store := new Store();
    created := store.Create(Some("Write report"), None, None, None, None, 0);
    assert created == Ok(1) && 1 in store.tasks;
    logged := store.RecordSession(Some(1), 25 * 60, "work");
    assert store.sessions[0].taskId == Some(1);
    deleted := store.Delete(1);
    kept := 1 in store.tasks;
  }
}
