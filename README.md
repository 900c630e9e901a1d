# DailyStart scheduling core in Dafny

This project models the scheduling, layout and merge logic of DailyStart, a
daily planner. DailyStart combines the calendars of several Google accounts
with a local task list, lays out a day view and runs a Pomodoro focus cycle.
The project states properties of that logic and proves them.

The model covers these parts:

- **The overlap layout engine of the day view (`getEventsWithLayout`).**
  - It sorts the events by start.
  - A running "group end" watermark cuts them into groups of transitively overlapping events.
  - It packs every group first-fit into columns.
  - Each event gets its column and the group's column count.
- **The focus scheduler of the Pomodoro view.**
  - The session table has eight fixed sessions.
  - The timer counts down and advances to `(c + 1) mod 8`.
  - Working-area tasks are distributed round-robin into the four work sessions, and an empty session is then filled.
  - A task can be moved by hand to one work session.
  - A completed work session logs one record per queued task.
- **The account colour** of events and tasks.
- **The calendar route of the server.**
  - Pending, visible tasks due in the window become 30-minute pseudo-events.
  - The events of every calendar of every connected account are concatenated, and a failing calendar contributes nothing.
  - The task events go last, and the whole list is stably sorted by effective start.
- **The task store of the server.** It is a class over the task table (a map from id to row), the connected accounts and the Pomodoro log, with these operations:
  - create with defaults;
  - PATCH with its one-group precedence;
  - the filtered and ordered list;
  - delete, which the foreign key of the session log refuses for a task with logged sessions;
  - connect, disconnect and logout;
  - recording a session, which the same key refuses for a task id with no row.

The parts fall into modules:

| module | file | contents |
|---|---|---|
| `Seqs` | `seqs.dfy` | concatenation of lists (`flat`) and removal of an element (`filter(y => y !== x)`) |
| `Sorting` | `sorting.dfy` | the stable sort every ordering in the system goes through. JavaScript's `Array.prototype.sort` is stable, and every comparator compares up to three numbers in turn, so the model is a stable insertion sort by a lexicographic key of three integers. The model states sortedness, permutation and stability; it does not prove that these three determine the result. |
| `Types` | `types.dfy` | events, tasks, effective start and end, and the decimal rendering of task ids |
| `Layout` | `layout.dfy` | `getEventsWithLayout` |
| `Focus` | `focus.dfy` | the session table, the distribution effect, the manual move, and the timer class |
| `Accounts` | `accounts.dfy` | `getAccountColor` |
| `Timeline` | `timeline.dfy` | the calendar route |
| `TaskStore` | `taskstore.dfy` | the tables and the task, connection and session routes |

The imperative code is modelled as imperative Dafny.

- **Methods with loops and invariants.** Each is proved against a specification function on sequences:
  - the layout passes;
  - the distribution loops;
  - the slot move;
  - the account loop of the calendar route.
- **Classes whose methods change fields.**
  - The React state of the timer is `Focus.FocusTimer`.
  - The tables are `TaskStore.Store`.

Instants are integer milliseconds. One end of an event is either a timed instant or an all-day date, and `dateTime || date` is the instant it carries.

Two orders by creation time appear in the code, and the model keeps both:

- The working area of the client sorts ascending, oldest first (`src/App.tsx:155`).
- The task list of the server sorts descending, newest first (`server.ts:283`).

The distribution effect depends on the whole task list (`src/App.tsx:182`). It therefore runs again after every refetch of the tasks, and each run replaces the assignment map, discarding any manual move made since.

## Model

| member | source | states |
|---|---|---|
| Sorting.SortBy | server.ts:263-267 | a stable sort: the result is a permutation of the input, non-decreasing by key, and the elements with any one key keep their relative order |
| Sorting.KeyLeTotal | server.ts:263-267 | the lexicographic key order is total and antisymmetric |
| Sorting.KeyLeTransitive | server.ts:263-267 | the lexicographic key order is transitive |
| Sorting.InsertSorted | server.ts:263-267 | inserting into a sorted list keeps it sorted |
| Sorting.InsertMultiset | server.ts:263-267 | insertion adds exactly the inserted element |
| Sorting.InsertWithKey | server.ts:263-267 | insertion places the new element in front of the elements with the same key, and keeps their order |
| Sorting.WithKeyAppend | server.ts:260-267 | the elements with one key in a concatenation are those of the first part followed by those of the second |
| Types.SortByStart | src/App.tsx:466-470 | the sort by effective start returns a permutation, non-decreasing by start, with equal starts in input order |
| Types.NatToString | server.ts:216 | the decimal digits of an id: at least one digit, two or more for ids of 10 and above |
| Types.DefaultPriority | server.ts:289 | the falsy default of a priority, shared by task creation and the working-area order (src/App.tsx:155): a missing or zero priority becomes 2, any other is kept |
| Types.DigitChar | server.ts:216 | a digit's character encodes exactly that digit |
| Types.NatToStringInjective | server.ts:216 | different ids print differently |
| Seqs.Without | src/App.tsx:1359-1361 | the filter removes every occurrence of the id and keeps every other element, with its multiplicity |
| Seqs.WithoutAppend | src/App.tsx:1359-1361 | filtering distributes over concatenation |
| Seqs.WithoutIdempotent | src/App.tsx:1359-1361 | filtering twice equals filtering once |
| Seqs.WithoutAbsent | src/App.tsx:1359-1361 | filtering out an absent id changes nothing |
| Seqs.FlattenAppend | src/App.tsx:491 | `flatMap` over two lists of groups is the concatenation of the two results |
| Seqs.FlattenSnoc | src/App.tsx:491 | appending one more group appends exactly its events to the flattened list |
| Seqs.FlattenSkipsEmpty | server.ts:250-256 | an empty inner list contributes nothing to `flat()` |
| Seqs.FlattenMember | server.ts:255-256 | every event of every inner list appears in the flattened list |
| Seqs.FlattenMemberInverse | server.ts:255-256 | every event of the flattened list comes from one of the inner lists |
| Layout.LayoutOf | src/App.tsx:465-519 | the layout lists exactly the start-sorted input events, in that order |
| Layout.Watermark | src/App.tsx:474-487 | after a scan the watermark is at least the end of the last scanned event |
| Layout.GetEventsWithLayout | src/App.tsx:465-519 | the engine returns the specified layout, and every event's column is below its group's column count |
| Layout.PlaceAll | src/App.tsx:491-518 | the placement pass over the groups yields exactly the specified placed events |
| Layout.GroupEvents | src/App.tsx:472-489 | the grouping pass with its watermark yields exactly the specified groups |
| Layout.PackColumns | src/App.tsx:492-506 | the packing pass for one group yields exactly the specified columns and per-event column |
| Layout.PlaceEvent | src/App.tsx:494-505 | the scan with `break` picks the leftmost column whose last event ended by the start, or opens a new column |
| Layout.FirstFit | src/App.tsx:495-505 | the chosen column fits, and every column to its left does not |
| Layout.Groups | src/App.tsx:476-489 | every group is non-empty, and there are groups exactly when there are events |
| Layout.Pack | src/App.tsx:492-506 | every event gets a column index below the column count, no column is empty, and a non-empty group has at least one column |
| Layout.FlattenGroups | src/App.tsx:472-489 | concatenating the groups gives back the sorted events: nothing is dropped, duplicated or reordered |
| Layout.Join | src/App.tsx:480-487 | one grouping step leaves every group non-empty and at least one group |
| Layout.FlattenJoin | src/App.tsx:480-487 | whether the event joins the current group or opens a new one, the grouped events gain exactly that event at the end |
| Layout.EventsOfPlaceGroups | src/App.tsx:491-518 | the laid-out events are the groups' events, in order |
| Layout.LayoutKeepsEvents | src/App.tsx:465-519 | the layout holds every input event exactly once, in non-decreasing start order |
| Layout.PlaceGroupsColumns | src/App.tsx:508-516 | every placed event's column is below its column count |
| Layout.LayoutColumnsInRange | src/App.tsx:508-516 | for the whole day, `0 <= colIdx < W` |
| Layout.Geometry | src/App.tsx:513-514 | `left >= 0`, `0 < width <= 100`, `left + width <= 100`, and a single column gives `left = 0` and `width = 100` |
| Layout.SingletonGroup | src/App.tsx:491-518 | an event alone in its group gets column 0 of 1, so `left = 0` and `width = 100` |
| Layout.MaxEndSnoc | src/App.tsx:482 | the latest end of a group grows by `Math.max` |
| Layout.WatermarkIsGroupEnd | src/App.tsx:474-487 | the watermark is at least the latest end of the current group, and equal to it when the first start is not negative |
| Layout.JoinKeepsChainedCut | src/App.tsx:480-482 | an event that starts before the current group's end joins it, and the grouping invariant is preserved |
| Layout.NewGroupKeepsChainedCut | src/App.tsx:483-486 | an event that starts at or after the current group's end opens a new group, and the grouping invariant is preserved |
| Layout.GroupsCharacterised | src/App.tsx:476-489 | within a group every event starts before the latest end of the group's earlier events, and every later group starts at or after the latest end of the group before it; so a new group starts exactly when the start reaches the running maximum end |
| Layout.WatermarkCoversAll | src/App.tsx:474-487 | for well-formed events, no scanned event ends after the watermark |
| Layout.JoinKeepsSeparated | src/App.tsx:480-482 | joining keeps each group led by its earliest event and the groups separated in time |
| Layout.NewGroupKeepsSeparated | src/App.tsx:483-486 | opening a group keeps each group led by its earliest event and the groups separated in time |
| Layout.GroupsSeparated | src/App.tsx:476-489 | for sorted, well-formed events, every event of an earlier group ends by the start of every later group |
| Layout.PackPrefix | src/App.tsx:493-506 | placing more events never moves an event already placed |
| Layout.PlacementIsFirstFit | src/App.tsx:493-506 | each event goes into the first column, among those open when it arrives, whose last event has ended by its start, or into a new column |
| Layout.PackNoOverlap | src/App.tsx:493-506 | within a group, events that share a column do not overlap |
| Layout.PlaceGroupsNoOverlap | src/App.tsx:491-518 | across separated groups, events with the same column index do not overlap |
| Layout.PlaceGroupNoOverlap | src/App.tsx:493-516 | the placed events of one group never overlap within a column |
| Layout.AppendNoOverlap | src/App.tsx:491-518 | two overlap-free runs of placed events, the first ending before the second starts, are overlap-free together |
| Layout.GroupsReady | src/App.tsx:472-489 | the groups of sorted, well-formed events are well-formed, start with their earliest event, and end before the next group starts |
| Layout.LayoutNoOverlap | src/App.tsx:465-519 | for well-formed events, any two events drawn in the same column of the day view do not overlap in time |
| Focus.SessionTable | src/App.tsx:76-85 | eight sessions; work exactly at the even indices, at 1500 s; breaks of 300 s except index 7, at 1200 s; work slots `[0, 2, 4, 6]` |
| Focus.NextCycle | src/App.tsx:319 | the next session is `(c + 1) mod 8`: the following index, and 0 after the last |
| Focus.AdvanceIsModular | src/App.tsx:319-321 | advancing n times from c gives `(c + n) mod 8` |
| Focus.InWorkingArea | src/App.tsx:153-154 | exactly the working-area tasks are kept, each as often as it occurs |
| Focus.WorkingTasks | src/App.tsx:152-155 | the working list holds exactly the working-area tasks, ordered by priority (a falsy one as 2) and then by creation time, oldest first |
| Focus.Ids | src/App.tsx:171 | an id is listed exactly when some working task carries it, with one entry per task |
| Focus.StripeSnoc | src/App.tsx:169-172 | the next task extends exactly the queue of its position mod 4 |
| Focus.StripeAt | src/App.tsx:169-172 | the task at position i lands in stripe i mod 4, at place i div 4 |
| Focus.StripeAtPlace | src/App.tsx:169-172 | place k of stripe r holds the task at position 4k + r |
| Focus.StripeElements | src/App.tsx:169-179 | a stripe contains only listed ids, and is empty exactly when fewer than q + 1 tasks exist |
| Focus.StripeLengths | src/App.tsx:169-172 | the four stripes together hold exactly n entries |
| Focus.StripeMapSnoc | src/App.tsx:169-172 | one round-robin step appends the task to work slot `[0, 2, 4, 6][i mod 4]` |
| Focus.FilledStep | src/App.tsx:175-179 | one step of the fill pass rewrites only the slot it visits |
| Focus.SlotMapAt | src/App.tsx:164-166 | the map of the four work slots has exactly the keys 0, 2, 4 and 6, and work slot q holds the q-th queue |
| Focus.SlotMapKey | src/App.tsx:164-166 | every key of the map is a work slot, twice the position of its queue |
| Focus.SlotMapUpdate | src/App.tsx:169-179 | overwriting work slot q replaces exactly the q-th queue |
| Focus.Distribute | src/App.tsx:157-179 | the map is empty exactly for an empty working list, and otherwise has exactly the keys 0, 2, 4 and 6 |
| Focus.DistributeAt | src/App.tsx:164-179 | for a non-empty working list, the keys are the four work slots and work slot q holds queue q |
| Focus.DistributeKey | src/App.tsx:164-179 | a key of the distribution is a work slot, and it holds the queue of its position |
| Focus.QueueOfStripe | src/App.tsx:176-178 | the fill pass adds the task at position q mod n exactly to an empty slot |
| Focus.DistributeWorkingTasks | src/App.tsx:151-182 | the effect produces the specified assignment map |
| Focus.RoundRobin | src/App.tsx:164-172 | the initialisation and the first pass leave each work slot holding its round-robin stripe |
| Focus.FillEmptySessions | src/App.tsx:174-179 | the second pass turns the stripes into the final map |
| Focus.WorkingTasksEmpty | src/App.tsx:157-160 | the working list is empty exactly when no task is in the working area |
| Focus.Assignments | src/App.tsx:151-182 | the map is empty exactly when no task is in the working area, and otherwise has exactly the keys 0, 2, 4 and 6 |
| Focus.EveryWorkSlotFilled | src/App.tsx:174-179 | after the fill pass every work slot is non-empty |
| Focus.RoundRobinPlacement | src/App.tsx:169-172 | the task at sorted position i is queued in work slot `[0, 2, 4, 6][i mod 4]`, at place i div 4 |
| Focus.QueuedAreListed | src/App.tsx:169-179 | only ids of the working list are queued |
| Focus.OnlyWorkingTasksQueued | src/App.tsx:152-179 | every queued id belongs to a task in the working area |
| Focus.NoFillWhenFourOrMore | src/App.tsx:174-179 | with n >= 4 the fill pass changes nothing, and the slots hold n entries in total |
| Focus.FillWhenFewerThanFour | src/App.tsx:174-179 | with 0 < n < 4, work slot q holds exactly the task at position q mod n |
| Focus.Moved | src/App.tsx:1357-1364 | the moved map has the old keys plus the target slot |
| Focus.MoveTask | src/App.tsx:1357-1364 | the updater produces the specified map |
| Focus.RemoveEverywhere | src/App.tsx:1358-1361 | every existing key keeps its slot with the task filtered out, and no key is added or dropped |
| Focus.MovedPlacesOnce | src/App.tsx:1357-1364 | after the move the keys are the old ones plus the target, and the task occurs exactly once in the whole map, as the last entry of the target slot |
| Focus.WithoutQueue | src/App.tsx:1359-1363 | removing the task from a moved slot gives back the slot with the task filtered out |
| Focus.MovedKeepsOthers | src/App.tsx:1357-1364 | every slot keeps its other ids in their old relative order |
| Focus.MoveIdempotent | src/App.tsx:1357-1364 | moving the same task to the same slot twice equals moving it once |
| Focus.RequeueMoved | src/App.tsx:1357-1364 | a second move of the same task to the same slot leaves every slot of the moved map as it is |
| Focus.CompletionLogs | src/App.tsx:303-317 | completing a work session logs one 1500-second record per queued task, in queue order; a break logs nothing |
| Focus.FocusTimer.constructor | src/App.tsx:71-87 | initial state: session 0, 25 minutes, stopped, no assignments |
| Focus.FocusTimer.Tick | src/App.tsx:289-293 | one interval tick: the time drops by one while running above 0, and nothing else changes |
| Focus.FocusTimer.BeginCompletion | src/App.tsx:300-317 | the completion up to its `await`: stop, post one record per task queued for the completed work session, and keep the cycle and the time; the continuation advances from the current cycle |
| Focus.FocusTimer.FinishCompletion | src/App.tsx:319-321 | the continuation after the posts: the cycle becomes the captured cycle plus one mod 8 and the time that session's full duration |
| Focus.FocusTimer.Step | src/App.tsx:288-298 | one run of the timer effect as written: count down while running above 0; at 0 begin the completion, running or not, with the completed session's records; otherwise idle |
| Focus.FocusTimer.GuardedStep | src/App.tsx:288-298 | the effect with the completion guarded by `running`: the same, except that at 0 a stopped timer does nothing |
| Focus.FocusTimer.SelectSession | src/App.tsx:1262-1265 | jump to a session, stopped, at its full duration |
| Focus.FocusTimer.Reset | src/App.tsx:1311 | stop, and restore the current session's full duration |
| Focus.FocusTimer.ToggleRunning | src/App.tsx:1305 | play and pause |
| Focus.FocusTimer.Redistribute | src/App.tsx:151-182 | the distribution effect replaces the assignment map, and the timer is untouched |
| Focus.FocusTimer.MoveTaskTo | src/App.tsx:1355-1365 | the manual move updates the assignment map, and the timer is untouched |
| Focus.CompletionPostsTwice | src/App.tsx:288-301 | as written, a running timer at 0 with task 7 queued in session 0 posts the record of task 7 in the first run of the effect and again in the run the stop triggers |
| Focus.GuardedCompletionPostsOnce | src/App.tsx:288-301 | with the guard, the same run posts the record once and the re-run posts nothing |
| Accounts.IndexOf | src/App.tsx:533 | `findIndex`: -1 exactly when the email is not connected, and otherwise its first position |
| Accounts.AccountColor | src/App.tsx:531-542 | stone exactly when the email is missing or empty, and otherwise one of the five account colours |
| Accounts.FirstFiveDistinct | src/App.tsx:531-542 | the first five distinct connected accounts get five different colours |
| Accounts.ColorOfPosition | src/App.tsx:531-542 | a connected account is drawn in the colour of its position modulo five |
| Accounts.ColorsRepeat | src/App.tsx:541 | the colours repeat every five accounts |
| Accounts.UnknownLooksLikeFirst | src/App.tsx:541 | an email that is not connected is drawn amber, like the first connected account |
| Timeline.Materialises | server.ts:214 | a row that passes the task query's filter has a due time, and its event starts within `[tMin, tMax]` and is well-formed |
| Timeline.TaskEvent | server.ts:215-224 | a task's event is a task event carrying the task id, starts at the due time and lasts exactly 30 minutes |
| Timeline.TaskEvents | server.ts:214-224 | every task event is a well-formed task event, and there are no more of them than rows |
| Timeline.TaskEventsExactly | server.ts:214-224 | an event is a task event exactly when some row is pending, not hidden, due within `[tMin, tMax]` and unowned or owned by a connected account, and the event is built from that row |
| Timeline.TaskEventsRejected | server.ts:214 | a row the filter rejects gives no event |
| Timeline.TaskEventIdsDistinct | server.ts:216 | equal event ids `task-<id>` mean equal task ids |
| Timeline.TaskEventIdsUnique | server.ts:214-224 | rows with distinct ids give task events with distinct ids |
| Timeline.Annotate | server.ts:245-249 | an annotated event carries the calendar's summary and the account's email, and is otherwise the provider's event |
| Timeline.CalendarEvents | server.ts:235-253 | every event of a calendar carries that calendar's summary as `calendarName` and the account's email; a failed calendar contributes nothing, and a fetched one one event per item |
| Timeline.PerCalendar | server.ts:235-254 | the entry of calendar i holds only events tagged with calendar i's summary and the account's email |
| Timeline.AccountEvents | server.ts:226-257 | a failed calendar list gives nothing, and every event gathered for an account carries that account's email |
| Timeline.CalendarsTagged | server.ts:247-256 | the flattened events of an account's calendars all carry the account's email |
| Timeline.PerAccount | server.ts:226-257 | the entry of connection i holds only events tagged with the email of connection i |
| Timeline.CalendarResponse | server.ts:196-274 | no connections give `[]`; the response fails exactly when there are connections and some calendar list fails; otherwise it holds exactly the provider events and the task events |
| Timeline.MergeTimeline | server.ts:196-274 | the handler produces the specified response: empty without connections, a failure if any calendar list fails, otherwise the sorted merge |
| Timeline.CollectAccounts | server.ts:226-257 | the account loop succeeds exactly when every calendar list succeeds, and then yields all provider events in connection order |
| Timeline.ListedSnoc | server.ts:226-233 | an account whose calendar list succeeds extends the run of successful accounts |
| Timeline.NoConnectionsNoEvents | server.ts:198 | without connections the answer is the empty list |
| Timeline.TimelineIsSortedMerge | server.ts:226-267 | a successful response is a permutation of all provider events plus all task events, non-decreasing by effective start, and among equal starts the provider events come before the task events, each in its own order |
| Timeline.ListFailureFailsAll | server.ts:226-272 | a failing calendar-list request for any account fails the whole response |
| Timeline.ProviderEventsAppend | server.ts:226-257 | the provider events of two runs of connections are those of the first followed by those of the second |
| Timeline.ProviderEventsSnoc | server.ts:255-256 | each iteration of the account loop appends exactly that account's events |
| Timeline.FailedCalendarIsSkipped | server.ts:250-253 | a calendar whose request fails contributes nothing, and the account's other calendars are unaffected |
| Timeline.PerCalendarAppend | server.ts:235-254 | per-calendar results of concatenated calendar lists concatenate |
| Timeline.ProviderEventsTagged | server.ts:247-248 | every provider event carries the email of a connected account |
| TaskStore.Scan | server.ts:214 | a scan returns no more rows than ids below n |
| TaskStore.ScanExactly | server.ts:214 | a scan returns exactly the stored rows, in increasing id order |
| TaskStore.NullIfEmpty | server.ts:289 | a non-empty email is kept, and a missing or empty one is stored as NULL |
| TaskStore.Filter | server.ts:283 | the list query keeps exactly the pending rows that are unowned or owned by a connected account |
| TaskStore.Listing | server.ts:278-284 | no connections give an empty list, and the list is ordered by the list key |
| TaskStore.ListingExactly | server.ts:278-284 | no connections give an empty list; otherwise the list holds exactly the stored rows that pass the filter |
| TaskStore.ListingOrdered | server.ts:283 | NULL priorities first, then ascending priority, and among equal priorities the newest first |
| TaskStore.GroupOf | server.ts:297-306 | the branch taken: status if present; else `in_working_area`; else `is_hidden`; else the details |
| TaskStore.PatchAsWritten | server.ts:293-308 | the handler as written fails exactly on a details update without a title, and otherwise changes only the chosen group |
| TaskStore.PatchRow | server.ts:297-306 | a PATCH changes only the fields of its group; id, creation time and account never change |
| TaskStore.PatchPrecedence | server.ts:297-306 | a field of a higher-precedence group shadows all fields below it |
| TaskStore.PatchWritesBody | server.ts:297-306 | the changed fields take the values of the body, and a flag is stored as given |
| TaskStore.PatchIdempotent | server.ts:293-308 | sending the same PATCH twice equals sending it once |
| TaskStore.PatchAgreesWhenComplete | server.ts:297-306 | outside the details branch, or with every details field given, the corrected handler agrees with the handler as written |
| TaskStore.PriorityPatchRejectedAsWritten | server.ts:304-306 | as written, the priority picker's request fails |
| TaskStore.PriorityPatchSetsPriority | src/App.tsx:373-380 | with the corrected details branch, the priority picker's request sets exactly the priority |
| TaskStore.Store.constructor | server.ts:19-47 | empty tables; ids start at 1 |
| TaskStore.Store.IsAuthenticated | server.ts:169-170 | authenticated exactly while some account is connected |
| TaskStore.Store.ListTasks | server.ts:277-285 | empty without connections; every listed row is pending and unowned or owned by a connected account; sorted by the list order |
| TaskStore.Store.Create | server.ts:287-291 | a new row under a fresh id that was not in the table, with a falsy priority stored as 2, a falsy due time and email stored as NULL, pending, not in the working area, not hidden; a missing title fails and changes nothing |
| TaskStore.Store.Update | server.ts:293-308 | with the corrected details branch: the row under the id takes the patch, and nothing else changes; an unknown id changes nothing |
| TaskStore.Store.UpdateAsWritten | server.ts:293-308 | the handler as written: it fails exactly when the row exists and the details branch lacks a title, and then no row changes; otherwise the row takes the as-written patch; an unknown id succeeds and changes nothing |
| TaskStore.Store.Delete | server.ts:317-320 | the statement fails, changing nothing, exactly when a logged session refers to the task (server.ts:45); otherwise exactly the row with that id is removed |
| TaskStore.Store.Connect | server.ts:129 | INSERT OR REPLACE: the account is connected once, as the newest row, and the others keep their order |
| TaskStore.Store.Disconnect | server.ts:189-193 | only that account is removed |
| TaskStore.Store.Logout | server.ts:182-187 | every connection is removed |
| TaskStore.SessionTask | server.ts:313 | the falsy default of a session's task id: a missing or zero id is stored as NULL, any other is kept |
| TaskStore.Store.RecordSession | server.ts:310-315 | the session is appended to the log, with a falsy task id stored as NULL; a task id with no row fails the foreign key (server.ts:45) and the log is unchanged |
| TaskStore.DeleteWithHistoryFails | server.ts:310-320 | in a new store, the first task gets a logged work session, and deleting it then fails and keeps its row |
| TaskStore.Store.CalendarEvents | server.ts:196-274 | the calendar route answers from the store's connections and task rows |
| TaskStore.WithoutKeepsNoDuplicates | server.ts:191 | removing an account keeps the connection list free of duplicates |
| TaskStore.TaskEventIdsUniqueInStore | server.ts:214-216 | the task events built from the table have distinct ids |

## Left out

- **Plumbing.** The OAuth flow, Express sessions, routing, the Vite middleware, and the schema and migrations are not modelled. The tables are in-memory values.
- **Provider calls.** The Google Calendar requests and the JSON parsing of stored tokens are not modelled. Each calendar list and each calendar's events are inputs, with a failure as a separate value.
- **Gemini services and the tray launcher.** `src/services/geminiService.ts`, `serverGemini.ts` and `install/DailyStartTray.py` are not part of this model.
- **Rendering and timing.** React rendering, animations, the beep, notifications, the one-second `setInterval` and the nightly check are not modelled. One firing of the timer effect is `Focus.FocusTimer.Step`.
- Focus.FocusTimer.BeginCompletion and Focus.FocusTimer.FinishCompletion: the POST requests are not modelled. When the continuation runs is left to the caller, and React's rule of re-running the effect on a change of `running` or `time` is stated only in the comments and the exhibits of the Findings row.
- TaskStore.Store.Update: the store runs the corrected details branch of the Findings row (`TaskStore.PatchRow`). The handler as written, which fails on a details PATCH without a title and writes absent fields as NULL, is `TaskStore.Store.UpdateAsWritten`.
- **Dates and numbers.** `new Date(...)` parsing, date-fns and the window defaults of the calendar route are left out. Instants and the window bounds are given integers.
  - The missing-date case that yields NaN is left out, and so is SQL `BETWEEN` on differently formatted timestamp strings.
  - Creation times of the table are integers rather than `CURRENT_TIMESTAMP` text, and the clock is a parameter (`now`).
- **Floating point.** Layout percentages are exact reals.
- Layout.GetEventsWithLayout: the column is recorded at placement. This equals `findIndex(c => c.includes(event))` for distinct event objects. The same object passed twice is not modelled.
- Layout.GroupsCharacterised: requires the first start to be at least 0. The initial watermark of 0 is kept as written. An event that starts before the epoch therefore joins the empty first group, and its watermark is `max(0, end)`.
- Timeline.CalendarResponse and TaskStore.Listing: the order of rows that SQL leaves open is taken as the id order of a table scan:
  - the task query without `ORDER BY`;
  - ties in `ORDER BY priority, created_at` for the list.
- TaskStore.PatchRow: status covers only `pending` and `completed`, the values the client sends. An explicit JSON `null` in a PATCH body is treated like an absent field.
- TaskStore.Store.Delete and TaskStore.Store.RecordSession: the foreign key of the session log (server.ts:45) is taken as enforced. The server opens the database through better-sqlite3, whose bundled SQLite turns foreign keys on by default, and no PRAGMA turns them off. Plain SQLite would leave the key unenforced; that configuration is not modelled.
- TaskStore.Store.RecordSession: a missing duration or type, which would violate NOT NULL, is not modelled. The client always sends both.
- The connections route, which returns emails and update times, is not modelled. The connection list is `TaskStore.Store.connections`.

## Findings

| source | as written | input that shows it | evidently intended | confidence | as-written member | corrected member |
|---|---|---|---|---|---|---|
| server.ts:304-306 | The details branch of PATCH writes priority, title, description and due time from the body, so an absent title is written as NULL into a `NOT NULL` column (server.ts:22). The UPDATE fails. | The priority picker's request `PATCH /api/tasks/:id` with body `{ priority: 3 }` (src/App.tsx:373-380, called at src/App.tsx:434) fails and the row keeps its old priority. | The details branch updates only the fields the body carries, so the picker sets the priority and nothing else. | likely; not executed | TaskStore.PriorityPatchRejectedAsWritten | TaskStore.PriorityPatchSetsPriority |
| src/App.tsx:288-301 | The timer effect calls the completion whenever `time` is 0, and the completion first stops the timer, then awaits the POSTs, and only then advances the cycle. | A work session with task 7 queued runs out. The stop changes `isTimerRunning`, a dependency of the effect (src/App.tsx:298), while `pomodoroTime` is still 0, so the effect runs again before the posts settle and posts the record of task 7 a second time. | A completed work session is logged once: the completion starts only while the timer runs. | plausible; not executed | Focus.CompletionPostsTwice | Focus.GuardedCompletionPostsOnce |
