/**
 * The focus cycle of the Pomodoro view: the fixed table of eight sessions,
 * the automatic distribution of working-area tasks into the four work
 * sessions, the manual move of a task to another work session, and the timer
 * that counts a session down and advances the cycle.
 */
module Focus {
  import opened Types
  import opened Sorting
  import opened Seqs

  // ---------------------------------------------------------------------------
  // The session table

  datatype SessionKind = Work | Rest

  datatype Session = Session(kind: SessionKind, duration: nat, name: string)

  /** The eight sessions of one cycle; durations in seconds. */
  const Sessions: seq<Session> := [
    Session(Work, 25 * 60, "Work 1"),
    Session(Rest, 5 * 60, "Break"),
    Session(Work, 25 * 60, "Work 2"),
    Session(Rest, 5 * 60, "Break"),
    Session(Work, 25 * 60, "Work 3"),
    Session(Rest, 5 * 60, "Break"),
    Session(Work, 25 * 60, "Work 4"),
    Session(Rest, 20 * 60, "Long Break")
  ]

  /** The session indices that receive tasks, in canonical order ("Work 1" to "Work 4"). */
  const WorkSlots: seq<nat> := [0, 2, 4, 6]

  /** Work sessions are exactly the even indices, 25 minutes each; breaks are 5 minutes except the last, 20. */
  lemma {:induction false} SessionTable()
    ensures |Sessions| == 8
    ensures forall i :: 0 <= i < 8 ==> (Sessions[i].kind == Work <==> i % 2 == 0)
    ensures forall i :: 0 <= i < 8 && i % 2 == 0 ==> Sessions[i].duration == 1500
    ensures forall i :: 0 <= i < 7 && i % 2 == 1 ==> Sessions[i].duration == 300
    ensures Sessions[7].duration == 1200
    ensures forall q :: 0 <= q < 4 ==> WorkSlots[q] == 2 * q && Sessions[WorkSlots[q]].kind == Work
  {
  }

  /** The session after c: `(c + 1) % 8`. */
  function NextCycle(c: nat): (n: nat)
    requires c < |Sessions|
    ensures n < |Sessions|
    ensures n == if c == |Sessions| - 1 then 0 else c + 1
  {
    (c + 1) % |Sessions|
  }

  function Advance(c: nat, times: nat): (n: nat)
    requires c < |Sessions|
    ensures n < |Sessions|
  {
    if times == 0 then c else NextCycle(Advance(c, times - 1))
  }

  /** The cycle is periodic: advancing `n` sessions moves `n mod 8` places round the table. */
  lemma {:induction false} AdvanceIsModular(c: nat, times: nat)
    requires c < |Sessions|
    ensures Advance(c, times) == (c + times) % |Sessions|
  {
    if times > 0 {
      AdvanceIsModular(c, times - 1);
    }
  }

  // ---------------------------------------------------------------------------
  // Automatic distribution of the working-area tasks

  /** Priority ascending, then creation time ascending (oldest first). */
  function FocusKey(t: Task): Key { Key(DefaultPriority(t.priority), t.createdAt, 0) }

  function InWorkingArea(tasks: seq<Task>): (r: seq<Task>)
    ensures forall i :: 0 <= i < |r| ==> r[i].inWorkingArea
    ensures forall t :: t in r <==> t in tasks && t.inWorkingArea
    ensures forall t :: multiset(r)[t] == if t.inWorkingArea then multiset(tasks)[t] else 0
  {
    if tasks == [] then []
    else
      assert tasks == [tasks[0]] + tasks[1..];
      (if tasks[0].inWorkingArea then [tasks[0]] else []) + InWorkingArea(tasks[1..])
  }

  /** The working-area tasks, stably sorted by effective priority and then by creation time. */
  function WorkingTasks(tasks: seq<Task>): (w: seq<Task>)
    ensures forall t :: t in w <==> t in tasks && t.inWorkingArea
    ensures forall i, j :: 0 <= i < j < |w| ==> KeyLe(FocusKey(w[i]), FocusKey(w[j]))
    ensures multiset(w) == multiset(InWorkingArea(tasks))
  {
    var w := SortBy(InWorkingArea(tasks), FocusKey);
    assert forall t :: t in w <==> t in multiset(w);
    w
  }

  /** The ids of the tasks, in order: an id is listed exactly when some task carries it. */
  function Ids(ts: seq<Task>): (ids: seq<nat>)
    ensures |ids| == |ts|
    ensures forall i :: 0 <= i < |ts| ==> ids[i] == ts[i].id
    ensures forall x :: x in ids <==> exists t :: t in ts && t.id == x
  {
    seq(|ts|, i requires 0 <= i < |ts| => ts[i].id)
  }

  /** The entries at positions q, q + 4, q + 8, ... of ids: what the round-robin pass gives work slot q. */
  function Stripe(ids: seq<nat>, q: nat): seq<nat>
    requires q < 4
    decreases |ids|
  {
    if |ids| <= q then []
    else [ids[q]] + (if |ids| <= 4 then [] else Stripe(ids[4..], q))
  }

  /** Appending an id extends the stripe of its position mod 4 and no other. */
  lemma {:induction false} StripeSnoc(ids: seq<nat>, x: nat, q: nat)
    requires q < 4
    ensures Stripe(ids + [x], q) == Stripe(ids, q) + (if |ids| % 4 == q then [x] else [])
    decreases |ids|
  {
    var t := ids + [x];
    if |ids| < 4 {
      if |ids| == q {
        assert t[q] == x;
      } else if q < |ids| {
        assert t[q] == ids[q];
      }
    } else if |ids| == 4 {
      assert t[q] == ids[q];
      assert t[4..] == [x];
    } else {
      assert t[q] == ids[q];
      assert t[4..] == ids[4..] + [x];
      assert (|ids| - 4) % 4 == |ids| % 4;
      StripeSnoc(ids[4..], x, q);
    }
  }

  /** Round robin: the id at position i sits in the stripe of i mod 4, at place i div 4. */
  lemma {:induction false} StripeAt(ids: seq<nat>, i: nat)
    requires i < |ids|
    ensures i / 4 < |Stripe(ids, i % 4)|
    ensures Stripe(ids, i % 4)[i / 4] == ids[i]
  {
    StripeAtPlace(ids, i / 4, i % 4);
  }

  /** Place k of stripe r holds the id at position 4k + r. */
  lemma {:induction false} StripeAtPlace(ids: seq<nat>, k: nat, r: nat)
    requires r < 4 && 4 * k + r < |ids|
    ensures k < |Stripe(ids, r)|
    ensures Stripe(ids, r)[k] == ids[4 * k + r]
    decreases k
  {
    if k > 0 {
      var rest := ids[4..];
      assert rest[4 * (k - 1) + r] == ids[4 * k + r];
      StripeAtPlace(rest, k - 1, r);
      assert Stripe(ids, r) == [ids[r]] + Stripe(rest, r);
    }
  }

  /** A stripe holds only ids of the list, and is empty exactly when the list is too short to reach it. */
  lemma {:induction false} StripeElements(ids: seq<nat>, q: nat)
    requires q < 4
    ensures forall x :: x in Stripe(ids, q) ==> x in ids
    ensures (|Stripe(ids, q)| == 0) == (|ids| <= q)
    decreases |ids|
  {
    if |ids| > 4 {
      StripeElements(ids[4..], q);
      forall x | x in Stripe(ids[4..], q) ensures x in ids {
        var j :| 0 <= j < |ids[4..]| && ids[4..][j] == x;
        assert ids[j + 4] == x;
      }
    }
  }

  /** The four stripes together hold every id exactly once. */
  lemma {:induction false} StripeLengths(ids: seq<nat>)
    ensures |Stripe(ids, 0)| + |Stripe(ids, 1)| + |Stripe(ids, 2)| + |Stripe(ids, 3)| == |ids|
    decreases |ids|
  {
    if |ids| > 4 {
      StripeLengths(ids[4..]);
    }
  }

  /** The queue of work slot q for a non-empty list: its stripe, or the id at position q mod n when the stripe is empty. */
  function Queue(ids: seq<nat>, q: nat): seq<nat>
    requires q < 4 && |ids| > 0
  {
    if q < |ids| then Stripe(ids, q) else [ids[q % |ids|]]
  }

  /** The map holding work slots 0, 2, 4 and 6 with the given queues. */
  function SlotMap(a: seq<nat>, b: seq<nat>, c: seq<nat>, d: seq<nat>): map<nat, seq<nat>>
  {
    map[0 := a, 2 := b, 4 := c, 6 := d]
  }

  /** The keys of a slot map are the four work slots, and work slot q holds the q-th queue. */
  lemma {:induction false} SlotMapAt(a: seq<nat>, b: seq<nat>, c: seq<nat>, d: seq<nat>, q: nat)
    requires q < 4
    ensures SlotMap(a, b, c, d).Keys == {0, 2, 4, 6}
    ensures WorkSlots[q] == 2 * q && 2 * q in SlotMap(a, b, c, d)
    ensures SlotMap(a, b, c, d)[2 * q] == [a, b, c, d][q]
  {
  }

  /** Every key of a slot map is a work slot, twice the position of its queue. */
  lemma {:induction false} SlotMapKey(a: seq<nat>, b: seq<nat>, c: seq<nat>, d: seq<nat>, s: nat)
    requires s in SlotMap(a, b, c, d)
    ensures s % 2 == 0 && s / 2 < 4 && s == WorkSlots[s / 2]
    ensures SlotMap(a, b, c, d)[s] == [a, b, c, d][s / 2]
  {
  }

  /** Overwriting work slot q of a slot map replaces its q-th queue. */
  lemma {:induction false} SlotMapUpdate(a: seq<nat>, b: seq<nat>, c: seq<nat>, d: seq<nat>, q: nat, v: seq<nat>)
    requires q < 4
    ensures SlotMap(a, b, c, d)[2 * q := v]
         == if q == 0 then SlotMap(v, b, c, d) else if q == 1 then SlotMap(a, v, c, d)
            else if q == 2 then SlotMap(a, b, v, d) else SlotMap(a, b, c, v)
  {
    var m := SlotMap(a, b, c, d)[2 * q := v];
    var r := if q == 0 then SlotMap(v, b, c, d) else if q == 1 then SlotMap(a, v, c, d)
             else if q == 2 then SlotMap(a, b, v, d) else SlotMap(a, b, c, v);
    assert m.Keys == r.Keys;
    forall k | k in m ensures m[k] == r[k] {
    }
  }

  /** The map of the distribution for the sorted working-task ids. */
  function Distribute(ids: seq<nat>): (r: map<nat, seq<nat>>)
    ensures r == map[] <==> |ids| == 0
    ensures |ids| > 0 ==> r.Keys == {0, 2, 4, 6}
  {
    if |ids| == 0 then map[]
    else
      SlotMapAt(Queue(ids, 0), Queue(ids, 1), Queue(ids, 2), Queue(ids, 3), 0);
      SlotMap(Queue(ids, 0), Queue(ids, 1), Queue(ids, 2), Queue(ids, 3))
  }

  /**
   * The assignment map the distribution effect produces: empty without
   * working-area tasks; otherwise the four work slots, each holding its
   * round-robin stripe or, when that is empty, the single task at position
   * `q mod n`.
   */
  function Assignments(tasks: seq<Task>): (r: map<nat, seq<nat>>)
    ensures r == map[] <==> forall t :: t in tasks ==> !t.inWorkingArea
    ensures (exists t :: t in tasks && t.inWorkingArea) ==> r.Keys == {0, 2, 4, 6}
  {
    WorkingTasksEmpty(tasks);
    Distribute(Ids(WorkingTasks(tasks)))
  }

  /** For a non-empty list, the keys are the four work slots and work slot q holds queue q. */
  lemma {:induction false} DistributeAt(ids: seq<nat>, q: nat)
    requires |ids| > 0 && q < 4
    ensures Distribute(ids).Keys == {0, 2, 4, 6}
    ensures WorkSlots[q] == 2 * q && 2 * q in Distribute(ids)
    ensures Distribute(ids)[2 * q] == Queue(ids, q)
  {
    SlotMapAt(Queue(ids, 0), Queue(ids, 1), Queue(ids, 2), Queue(ids, 3), q);
  }

  lemma {:induction false} DistributeKey(ids: seq<nat>, s: nat)
    requires s in Distribute(ids)
    ensures |ids| > 0 && s % 2 == 0 && s / 2 < 4 && s == WorkSlots[s / 2]
    ensures Distribute(ids)[s] == Queue(ids, s / 2)
  {
    SlotMapKey(Queue(ids, 0), Queue(ids, 1), Queue(ids, 2), Queue(ids, 3), s);
  }

  /** The distribution effect: round-robin over the work sessions, then fill the empty ones. */
  method DistributeWorkingTasks(tasks: seq<Task>) returns (assignments: map<nat, seq<nat>>)
    ensures assignments == Assignments(tasks)
  {
    var workingTasks := WorkingTasks(tasks);
    if |workingTasks| == 0 {
      return map[];
    }
    assignments := RoundRobin(workingTasks);
    assignments := FillEmptySessions(workingTasks, assignments);
  }

  /** The map after the round-robin pass over ids: each work slot holds its stripe. */
  function StripeMap(ids: seq<nat>): map<nat, seq<nat>>
  {
    SlotMap(Stripe(ids, 0), Stripe(ids, 1), Stripe(ids, 2), Stripe(ids, 3))
  }

  /** Work slot q after the fill pass has visited the first `visited` work slots. */
  function FilledQueue(ids: seq<nat>, visited: nat, q: nat): seq<nat>
    requires |ids| > 0 && q < 4
  {
    if q < visited then Queue(ids, q) else Stripe(ids, q)
  }

  /** The map after the fill pass has visited the first `visited` work slots. */
  function Filled(ids: seq<nat>, visited: nat): map<nat, seq<nat>>
    requires |ids| > 0
  {
    SlotMap(FilledQueue(ids, visited, 0), FilledQueue(ids, visited, 1), FilledQueue(ids, visited, 2), FilledQueue(ids, visited, 3))
  }

  lemma {:induction false} StripeMapSnoc(ids: seq<nat>, x: nat)
    ensures var s := WorkSlots[|ids| % 4];
      s in StripeMap(ids) && StripeMap(ids + [x]) == StripeMap(ids)[s := StripeMap(ids)[s] + [x]]
  {
    StripeSnoc(ids, x, 0);
    StripeSnoc(ids, x, 1);
    StripeSnoc(ids, x, 2);
    StripeSnoc(ids, x, 3);
    var q := |ids| % 4;
    var a, b, c, d := Stripe(ids, 0), Stripe(ids, 1), Stripe(ids, 2), Stripe(ids, 3);
    SlotMapAt(a, b, c, d, q);
    SlotMapUpdate(a, b, c, d, q, Stripe(ids, q) + [x]);
    var t := ids + [x];
    if q == 0 {
      assert Stripe(t, 0) == a + [x] && Stripe(t, 1) == b && Stripe(t, 2) == c && Stripe(t, 3) == d;
    } else if q == 1 {
      assert Stripe(t, 0) == a && Stripe(t, 1) == b + [x] && Stripe(t, 2) == c && Stripe(t, 3) == d;
    } else if q == 2 {
      assert Stripe(t, 0) == a && Stripe(t, 1) == b && Stripe(t, 2) == c + [x] && Stripe(t, 3) == d;
    } else {
      assert Stripe(t, 0) == a && Stripe(t, 1) == b && Stripe(t, 2) == c && Stripe(t, 3) == d + [x];
    }
  }

  lemma {:induction false} FilledStep(ids: seq<nat>, q: nat)
    requires |ids| > 0 && q < 4
    ensures WorkSlots[q] in Filled(ids, q)
    ensures Filled(ids, q)[WorkSlots[q]] == Stripe(ids, q)
    ensures Filled(ids, q + 1) == Filled(ids, q)[WorkSlots[q] := Queue(ids, q)]
  {
  }

  /** The fill pass adds the id at position q mod n exactly to an empty stripe. */
  lemma {:induction false} QueueOfStripe(ids: seq<nat>, q: nat)
    requires |ids| > 0 && q < 4
    ensures Queue(ids, q) == Stripe(ids, q) + (if |Stripe(ids, q)| == 0 then [ids[q % |ids|]] else [])
  {
    StripeElements(ids, q);
    if |Stripe(ids, q)| == 0 {
      assert Stripe(ids, q) == [];
    }
  }

  /** Every work session starts empty; the task at position i then goes to work session i mod 4. */
  method RoundRobin(workingTasks: seq<Task>) returns (assignments: map<nat, seq<nat>>)
    ensures assignments == StripeMap(Ids(workingTasks))
  {
    ghost var ids := Ids(workingTasks);
    assignments := map[];
    var q := 0;
    while q < |WorkSlots|
      invariant 0 <= q <= 4
      invariant assignments == map s | s in WorkSlots[..q] :: []
    {
      assert WorkSlots[..q + 1] == WorkSlots[..q] + [WorkSlots[q]];
      assignments := assignments[WorkSlots[q] := []];
      q := q + 1;
    }
    assert WorkSlots[..4] == WorkSlots;
    assert assignments == StripeMap(ids[..0]);

    var i := 0;
    while i < |workingTasks|
      invariant 0 <= i <= |workingTasks|
      invariant assignments == StripeMap(ids[..i])
    {
      var sessionIndex := WorkSlots[i % |WorkSlots|];
      var id := workingTasks[i].id;
      assert ids[..i + 1] == ids[..i] + [id];
      StripeMapSnoc(ids[..i], id);
      assignments := assignments[sessionIndex := assignments[sessionIndex] + [id]];
      i := i + 1;
    }
    assert ids[..|ids|] == ids;
  }

  /** The second pass: a work session left empty gets the task at position q mod n. */
  method FillEmptySessions(workingTasks: seq<Task>, striped: map<nat, seq<nat>>) returns (assignments: map<nat, seq<nat>>)
    requires |workingTasks| > 0
    requires striped == StripeMap(Ids(workingTasks))
    ensures assignments == Distribute(Ids(workingTasks))
  {
    ghost var ids := Ids(workingTasks);
    assignments := striped;
    assert assignments == Filled(ids, 0);
    var q := 0;
    while q < |WorkSlots|
      invariant 0 <= q <= 4
      invariant assignments == Filled(ids, q)
    {
      var sessionIndex := WorkSlots[q];
      FilledStep(ids, q);
      QueueOfStripe(ids, q);
      if |assignments[sessionIndex]| == 0 {
        var id := workingTasks[q % |workingTasks|].id;
        assert id == ids[q % |ids|];
        assignments := assignments[sessionIndex := assignments[sessionIndex] + [id]];
      }
      q := q + 1;
    }
    assert Filled(ids, 4) == Distribute(ids);
  }

  /** No working-area tasks exactly when the sorted working list is empty. */
  lemma {:induction false} WorkingTasksEmpty(tasks: seq<Task>)
    ensures (|WorkingTasks(tasks)| == 0) <==> (forall t :: t in tasks ==> !t.inWorkingArea)
  {
    var w := WorkingTasks(tasks);
    if |w| > 0 {
      assert w[0] in w;
    }
  }

  /** For a non-empty list no work slot is left empty. */
  lemma {:induction false} EveryWorkSlotFilled(ids: seq<nat>)
    requires |ids| > 0
    ensures forall s :: s in Distribute(ids) ==> |Distribute(ids)[s]| >= 1
  {
    forall s | s in Distribute(ids) ensures |Distribute(ids)[s]| >= 1 {
      DistributeKey(ids, s);
      if s / 2 < |ids| { StripeElements(ids, s / 2); }
    }
  }

  /** Round robin: the id at position i is queued in work slot `[0, 2, 4, 6][i mod 4]`, at place i div 4. */
  lemma {:induction false} RoundRobinPlacement(ids: seq<nat>, i: nat)
    requires i < |ids|
    ensures WorkSlots[i % 4] in Distribute(ids)
    ensures i / 4 < |Distribute(ids)[WorkSlots[i % 4]]|
    ensures Distribute(ids)[WorkSlots[i % 4]][i / 4] == ids[i]
  {
    StripeAt(ids, i);
    DistributeAt(ids, i % 4);
  }

  /** Only ids of the list are ever queued. */
  lemma {:induction false} QueuedAreListed(ids: seq<nat>, s: nat, x: nat)
    requires s in Distribute(ids) && x in Distribute(ids)[s]
    ensures x in ids
  {
    DistributeKey(ids, s);
    if s / 2 < |ids| {
      StripeElements(ids, s / 2);
    }
  }

  /** Only working-area tasks are ever queued. */
  lemma {:induction false} OnlyWorkingTasksQueued(tasks: seq<Task>, s: nat, x: nat)
    requires s in Assignments(tasks) && x in Assignments(tasks)[s]
    ensures exists t :: t in tasks && t.inWorkingArea && t.id == x
  {
    var w := WorkingTasks(tasks);
    var ids := Ids(w);
    QueuedAreListed(ids, s, x);
    var i :| 0 <= i < |ids| && ids[i] == x;
    assert w[i] in w;
  }

  /** With four or more ids the fill pass changes nothing: every slot holds its stripe and the entries number n. */
  lemma {:induction false} NoFillWhenFourOrMore(ids: seq<nat>)
    requires |ids| >= 4
    ensures forall q :: 0 <= q < 4 ==> Distribute(ids)[WorkSlots[q]] == Stripe(ids, q)
    ensures |Distribute(ids)[0]| + |Distribute(ids)[2]| + |Distribute(ids)[4]| + |Distribute(ids)[6]| == |ids|
  {
    StripeLengths(ids);
    forall q | 0 <= q < 4 ensures Distribute(ids)[WorkSlots[q]] == Stripe(ids, q) {
      DistributeAt(ids, q);
    }
  }

  /** With fewer than four ids every work slot q holds exactly one id, the one at position `q mod n`. */
  lemma {:induction false} FillWhenFewerThanFour(ids: seq<nat>)
    requires 0 < |ids| < 4
    ensures forall q :: 0 <= q < 4 ==> Distribute(ids)[WorkSlots[q]] == [ids[q % |ids|]]
  {
    forall q | 0 <= q < 4 ensures Distribute(ids)[WorkSlots[q]] == [ids[q % |ids|]] {
      DistributeAt(ids, q);
      if q < |ids| {
        assert q % |ids| == q;
      }
    }
  }

  // ---------------------------------------------------------------------------
  // Manual move of a task to one work session

  /** The queue of slot k after t was moved to `slot`: t filtered out, and appended when k is the target. */
  function MovedQueue(m: map<nat, seq<nat>>, t: nat, slot: nat, k: nat): seq<nat>
  {
    (if k in m then Without(m[k], t) else []) + (if k == slot then [t] else [])
  }

  /** The assignment map after task t was moved to slot `slot`: removed everywhere, appended to `slot`. */
  function Moved(m: map<nat, seq<nat>>, t: nat, slot: nat): (r: map<nat, seq<nat>>)
    ensures forall k :: k in r <==> k in m || k == slot
  {
    map k | k in m.Keys + {slot} :: MovedQueue(m, t, slot, k)
  }

  /** The updater of the manual move: filter every slot, create the target if missing, push. */
  method MoveTask(prev: map<nat, seq<nat>>, t: nat, slot: nat) returns (next: map<nat, seq<nat>>)
    ensures next == Moved(prev, t, slot)
  {
    next := RemoveEverywhere(prev, t);
    ghost var removed := next;
    if slot !in next {
      next := next[slot := []];
    }
    ghost var target := if slot in removed then removed[slot] else [];
    assert next == removed[slot := target] && next[slot] == target;
    next := next[slot := next[slot] + [t]];
    assert next == removed[slot := target + [t]];
    PushAfterRemove(prev, removed, t, slot);
  }

  /** Pushing t onto the target slot of the filtered map gives the moved map. */
  lemma {:induction false} PushAfterRemove(prev: map<nat, seq<nat>>, removed: map<nat, seq<nat>>, t: nat, slot: nat)
    requires removed.Keys == prev.Keys
    requires forall k :: k in prev ==> removed[k] == Without(prev[k], t)
    ensures removed[slot := (if slot in removed then removed[slot] else []) + [t]] == Moved(prev, t, slot)
  {
    var next := removed[slot := (if slot in removed then removed[slot] else []) + [t]];
    var r := Moved(prev, t, slot);
    forall k | k in next ensures next[k] == r[k] {
      PushedAt(prev, removed, t, slot, k);
    }
    SameMaps(next, r);
  }

  /** Two maps with the same keys and the same value under each key are equal. */
  lemma {:induction false} SameMaps(a: map<nat, seq<nat>>, b: map<nat, seq<nat>>)
    requires forall k :: k in a <==> k in b
    requires forall k :: k in a ==> a[k] == b[k]
    ensures a == b
  {
  }

  lemma {:induction false} PushedAt(prev: map<nat, seq<nat>>, removed: map<nat, seq<nat>>, t: nat, slot: nat, k: nat)
    requires removed.Keys == prev.Keys
    requires forall k :: k in prev ==> removed[k] == Without(prev[k], t)
    requires k in prev || k == slot
    ensures removed[slot := (if slot in removed then removed[slot] else []) + [t]][k] == Moved(prev, t, slot)[k]
  {
    MovedAt(prev, t, slot, k);
  }

  /** One slot of the moved map: the target gets t pushed, any other key keeps its filtered queue. */
  lemma {:induction false} MovedAt(m: map<nat, seq<nat>>, t: nat, slot: nat, k: nat)
    requires k in m || k == slot
    ensures k != slot ==> Moved(m, t, slot)[k] == Without(m[k], t)
    ensures k == slot ==> Moved(m, t, slot)[k] == (if k in m then Without(m[k], t) else []) + [t]
  {
    assert Moved(m, t, slot)[k] == MovedQueue(m, t, slot, k);
    if k != slot {
      assert Without(m[k], t) + [] == Without(m[k], t);
    }
  }

  /** Filters t out of every queue of the map. */
  method RemoveEverywhere(prev: map<nat, seq<nat>>, t: nat) returns (next: map<nat, seq<nat>>)
    ensures next.Keys == prev.Keys
    ensures forall k :: k in prev ==> next[k] == Without(prev[k], t)
  {
    next := prev;
    var keys := prev.Keys;
    while keys != {}
      invariant keys <= prev.Keys
      invariant next.Keys == prev.Keys
      invariant forall k :: k in prev ==> next[k] == if k in keys then prev[k] else Without(prev[k], t)
      decreases keys
    {
      var k :| k in keys;
      next := next[k := Without(next[k], t)];
      keys := keys - {k};
    }
  }

  /** After the move, t occurs exactly once in the whole map: as the last entry of the target slot. */
  lemma {:induction false} MovedPlacesOnce(m: map<nat, seq<nat>>, t: nat, slot: nat)
    ensures Moved(m, t, slot).Keys == m.Keys + {slot}
    ensures |Moved(m, t, slot)[slot]| >= 1 && Last(Moved(m, t, slot)[slot]) == t
    ensures forall k :: k in Moved(m, t, slot) ==>
              multiset(Moved(m, t, slot)[k])[t] == if k == slot then 1 else 0
  {
    var r := Moved(m, t, slot);
    assert r.Keys == m.Keys + {slot};
    assert r[slot] == MovedQueue(m, t, slot, slot);
    forall k | k in r ensures multiset(r[k])[t] == if k == slot then 1 else 0 {
      MovedCount(m, t, slot, k);
    }
  }

  lemma {:induction false} MovedCount(m: map<nat, seq<nat>>, t: nat, slot: nat, k: nat)
    ensures multiset(MovedQueue(m, t, slot, k))[t] == if k == slot then 1 else 0
  {
    var base := if k in m then Without(m[k], t) else [];
    assert multiset(base)[t] == 0;
  }

  lemma {:induction false} WithoutQueue(m: map<nat, seq<nat>>, t: nat, slot: nat, k: nat)
    ensures Without(MovedQueue(m, t, slot, k), t) == if k in m then Without(m[k], t) else []
  {
    var base := if k in m then Without(m[k], t) else [];
    assert Without(base, t) == base by {
      if k in m { WithoutIdempotent(m[k], t); }
    }
    if k == slot {
      assert MovedQueue(m, t, slot, k) == base + [t];
      WithoutAppend(base, [t], t);
      assert Without([t], t) == [] by {
        assert [t][1..] == [];
      }
      assert base + [] == base;
    } else {
      assert MovedQueue(m, t, slot, k) == base + [];
      assert base + [] == base;
    }
  }

  /** Every slot keeps its other ids in their old order. */
  lemma {:induction false} MovedKeepsOthers(m: map<nat, seq<nat>>, t: nat, slot: nat)
    ensures forall k :: k in m ==> Without(Moved(m, t, slot)[k], t) == Without(m[k], t)
  {
    forall k | k in m ensures Without(Moved(m, t, slot)[k], t) == Without(m[k], t) {
      WithoutQueue(m, t, slot, k);
    }
  }

  /** Moving the same task to the same slot twice is the same as moving it once. */
  lemma {:induction false} MoveIdempotent(m: map<nat, seq<nat>>, t: nat, slot: nat)
    ensures Moved(Moved(m, t, slot), t, slot) == Moved(m, t, slot)
  {
    var once := Moved(m, t, slot);
    var twice := Moved(once, t, slot);
    assert slot in once;
    forall k | k in once ensures twice[k] == once[k] {
      assert twice[k] == MovedQueue(once, t, slot, k);
      RequeueMoved(m, t, slot, k);
    }
    assert twice == once;
  }

  /** A slot of the moved map is requeued to the same contents by a second move. */
  lemma {:induction false} RequeueMoved(m: map<nat, seq<nat>>, t: nat, slot: nat, k: nat)
    requires k in Moved(m, t, slot)
    ensures MovedQueue(Moved(m, t, slot), t, slot, k) == Moved(m, t, slot)[k]
  {
    var once := Moved(m, t, slot);
    assert once[k] == MovedQueue(m, t, slot, k);
    WithoutQueue(m, t, slot, k);
    var base := if k in m then Without(m[k], t) else [];
    assert Without(once[k], t) == base;
    assert MovedQueue(once, t, slot, k) == base + (if k == slot then [t] else []);
  }

  // ---------------------------------------------------------------------------
  // The timer

  /** A Pomodoro session logged when a work session completes, one per queued task. */
  datatype SessionLog = SessionLog(taskId: nat, duration: nat)

  /** What completing session `cycle` logs: for a work session one record per queued task, with that session's duration. */
  function CompletionLogs(cycle: nat, m: map<nat, seq<nat>>): (logs: seq<SessionLog>)
    requires cycle < |Sessions|
    ensures Sessions[cycle].kind == Rest ==> logs == []
    ensures Sessions[cycle].kind == Work && cycle in m ==>
              |logs| == |m[cycle]| &&
              forall i :: 0 <= i < |logs| ==> logs[i] == SessionLog(m[cycle][i], 25 * 60)
    ensures cycle !in m ==> logs == []
  {
    var queued := if cycle in m then m[cycle] else [];
    if Sessions[cycle].kind == Work
    then seq(|queued|, i requires 0 <= i < |queued| => SessionLog(queued[i], Sessions[cycle].duration))
    else []
  }

  /**
   * The Pomodoro state of the view: the current session of the cycle, the
   * seconds left in it, whether the timer runs, and the assignment map.
   */
  class FocusTimer {
    var cycle: nat
    var time: int
    var running: bool
    var assignments: map<nat, seq<nat>>

    /** The session index is in the table and the seconds left lie between 0 and its duration. */
    ghost predicate Valid()
      reads this
    {
      cycle < |Sessions| && 0 <= time <= Sessions[cycle].duration
    }

    constructor ()
      ensures Valid()
      ensures cycle == 0 && time == 25 * 60 && !running && assignments == map[]
    {
      cycle := 0;
      time := 25 * 60;
      running := false;
      assignments := map[];
    }

    /** One second of the interval: the timer counts down while it runs and is above 0. */
    method Tick()
      requires Valid()
      modifies this
      ensures Valid()
      ensures time == if old(running) && old(time) > 0 then old(time) - 1 else old(time)
      ensures cycle == old(cycle) && running == old(running) && assignments == old(assignments)
    {
      if running && time > 0 {
        time := time - 1;
      }
    }

    /**
     * The completion handler up to its `await`: stop the timer and post one
     * session record per task queued for the session if it is a work session.
     * The cycle and the seconds left are not touched yet; `from` is the cycle
     * the continuation captured and will advance from.
     */
    method BeginCompletion() returns (logged: seq<SessionLog>, from: nat)
      requires Valid()
      modifies this
      ensures Valid()
      ensures !running && cycle == old(cycle) && time == old(time) && assignments == old(assignments)
      ensures from == old(cycle)
      ensures logged == CompletionLogs(old(cycle), old(assignments))
    {
      running := false;
      from := cycle;
      var session := Sessions[cycle];
      logged := [];
      if session.kind == Work {
        var assignedTasks := if cycle in assignments then assignments[cycle] else [];
        logged := seq(|assignedTasks|, i requires 0 <= i < |assignedTasks| => SessionLog(assignedTasks[i], session.duration));
      }
    }

    /**
     * The completion handler after the posts have settled: move on from the
     * captured cycle to the next session and set the timer to its full duration.
     */
    method FinishCompletion(from: nat)
      requires Valid() && from < |Sessions|
      modifies this
      ensures Valid()
      ensures cycle == NextCycle(from) && time == Sessions[cycle].duration
      ensures running == old(running) && assignments == old(assignments)
    {
      var nextCycle := (from + 1) % |Sessions|;
      cycle := nextCycle;
      time := Sessions[nextCycle].duration;
    }

    /**
     * One run of the timer effect as written, which React repeats whenever
     * `running` or `time` changed: it counts down while running above 0 and
     * starts the completion at 0 whether or not the timer runs. A started
     * completion is returned as the cycle its continuation advances from.
     */
    method Step() returns (logged: seq<SessionLog>, pending: Option<nat>)
      requires Valid()
      modifies this
      ensures Valid()
      ensures old(running) && old(time) > 0 ==>
                time == old(time) - 1 && cycle == old(cycle) && running && logged == [] && pending == None
      ensures !(old(running) && old(time) > 0) && old(time) != 0 ==>
                time == old(time) && cycle == old(cycle) && running == old(running) && logged == [] && pending == None
      ensures old(time) == 0 ==>
                !running && cycle == old(cycle) && time == 0 && pending == Some(old(cycle))
                && logged == CompletionLogs(old(cycle), old(assignments))
      ensures assignments == old(assignments)
    {
      logged, pending := [], None;
      if running && time > 0 {
        Tick();
      } else if time == 0 {
        var from;
        logged, from := BeginCompletion();
        pending := Some(from);
      }
    }

    /**
     * The timer effect with the completion guarded by `running`: the stop that
     * the completion itself makes re-runs the effect, and this run then does
     * nothing.
     */
    method GuardedStep() returns (logged: seq<SessionLog>, pending: Option<nat>)
      requires Valid()
      modifies this
      ensures Valid()
      ensures old(running) && old(time) > 0 ==>
                time == old(time) - 1 && cycle == old(cycle) && running && logged == [] && pending == None
      ensures !(old(running) && old(time) == 0) && !(old(running) && old(time) > 0) ==>
                time == old(time) && cycle == old(cycle) && running == old(running) && logged == [] && pending == None
      ensures old(running) && old(time) == 0 ==>
                !running && cycle == old(cycle) && time == 0 && pending == Some(old(cycle))
                && logged == CompletionLogs(old(cycle), old(assignments))
      ensures assignments == old(assignments)
    {
      logged, pending := [], None;
      if running && time > 0 {
        Tick();
      } else if running && time == 0 {
        var from;
        logged, from := BeginCompletion();
        pending := Some(from);
      }
    }

    /** Picking a session from the cycle list: jump to it, stopped, at its full duration. */
    method SelectSession(idx: nat)
      requires Valid() && idx < |Sessions|
      modifies this
      ensures Valid()
      ensures cycle == idx && time == Sessions[idx].duration && !running
      ensures assignments == old(assignments)
    {
      cycle := idx;
      time := Sessions[idx].duration;
      running := false;
    }

    /** The reset button: stop and restore the current session's full duration. */
    method Reset()
      requires Valid()
      modifies this
      ensures Valid()
      ensures !running && cycle == old(cycle) && time == Sessions[cycle].duration
      ensures assignments == old(assignments)
    {
      running := false;
      time := Sessions[cycle].duration;
    }

    /** The play/pause button. */
    method ToggleRunning()
      requires Valid()
      modifies this
      ensures Valid()
      ensures running == !old(running)
      ensures cycle == old(cycle) && time == old(time) && assignments == old(assignments)
    {
      running := !running;
    }

    /**
     * The distribution effect. It runs whenever the task list changes (a
     * refetch included), not only when the number of working-area tasks does,
     * and so overwrites any manual move made since.
     */
    method Redistribute(tasks: seq<Task>)
      requires Valid()
      modifies this
      ensures Valid()
      ensures assignments == Assignments(tasks)
      ensures cycle == old(cycle) && time == old(time) && running == old(running)
    {
      assignments := DistributeWorkingTasks(tasks);
    }

    /** The W1 to W4 buttons on a queued task. */
    method MoveTaskTo(t: nat, slot: nat)
      requires Valid()
      modifies this
      ensures Valid()
      ensures assignments == Moved(old(assignments), t, slot)
      ensures cycle == old(cycle) && time == old(time) && running == old(running)
    {
      assignments := MoveTask(assignments, t, slot);
    }
  }

  // ---------------------------------------------------------------------------
  // The completion as written posts a work session's records twice

  /**
   * A running timer reaches 0 in the first work session with task 7 queued.
   * The first run of the effect stops the timer; that change of `running`, with
   * `time` still 0, makes React run the effect again before the posts settle,
   * and the second run posts the same record again.
   */
  method CompletionPostsTwice() returns (first: seq<SessionLog>, second: seq<SessionLog>, rerun: bool)
    ensures first == [SessionLog(7, 25 * 60)]
    ensures rerun && second == first
  {
    var timer := new FocusTimer();
    timer.time, timer.running, timer.assignments := 0, true, map[0 := [7]];
    var pending;
    first, pending := timer.Step();
    rerun := !timer.running && timer.time == 0;
    second, pending := timer.Step();
  }

  /** The same run with the guarded effect: the record is posted once. */
  method GuardedCompletionPostsOnce() returns (first: seq<SessionLog>, second: seq<SessionLog>, rerun: bool)
    ensures first == [SessionLog(7, 25 * 60)]
    ensures rerun && second == []
  {
    var timer := new FocusTimer();
    timer.time, timer.running, timer.assignments := 0, true, map[0 := [7]];
    var pending;
    first, pending := timer.GuardedStep();
    rerun := !timer.running && timer.time == 0;
    second, pending := timer.GuardedStep();
  }
}
