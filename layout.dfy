/**
 * The overlap layout engine of the day view (`getEventsWithLayout`): sort a
 * day's events by effective start, cut them into groups with a running
 * "group end" watermark, pack every group first-fit into columns, and give
 * each event its column and the group's column count, from which the
 * renderer takes `left = col / W * 100` and `width = 100 / W`.
 */
module Layout {
  import opened Types
  import opened Sorting
  import opened Seqs

  /** An event with its placement: column `column` of a group `columns` wide. */
  datatype Laid = Laid(event: Event, column: nat, columns: nat)

  /** `layout.left`, in percent of the day column. */
  function Left(l: Laid): real
    requires l.columns > 0
  {
    (l.column as real / l.columns as real) * 100.0
  }

  /** `layout.width`, in percent of the day column. */
  function Width(l: Laid): real
    requires l.columns > 0
  {
    100.0 / l.columns as real
  }

  function Max(a: int, b: int): int { if a < b then b else a }


  // ---------------------------------------------------------------------------
  // Specification of the grouping pass

  /** `groupEnd` after the events of s have been scanned (0 before the first). */
  function Watermark(s: seq<Event>): (w: int)
    ensures s != [] ==> EndMs(Last(s)) <= w
  {
    if s == [] then 0
    else
      var w := Watermark(s[..|s| - 1]);
      var e := Last(s);
      if StartMs(e) < w then Max(w, EndMs(e)) else EndMs(e)
  }

  /**
   * The groups after the events of s have been scanned: an event that starts
   * before the watermark joins the current group, any other starts a new one.
   */
  function Groups(s: seq<Event>): (gs: seq<seq<Event>>)
    ensures forall k :: 0 <= k < |gs| ==> gs[k] != []
    ensures s != [] <==> gs != []
  {
    if s == [] then []
    else
      var p := s[..|s| - 1];
      var e := Last(s);
      Join(Groups(p), e, StartMs(e) < Watermark(p))
  }

  /** One grouping step: the event joins the current group when it overlaps it, and opens a new group otherwise. */
  function Join<T>(gs: seq<seq<T>>, e: T, overlaps: bool): (r: seq<seq<T>>)
    requires forall k :: 0 <= k < |gs| ==> gs[k] != []
    ensures forall k :: 0 <= k < |r| ==> r[k] != []
    ensures r != []
  {
    if overlaps && gs != [] then gs[..|gs| - 1] + [gs[|gs| - 1] + [e]] else gs + [[e]]
  }

  lemma {:induction false} FlattenJoin<T>(gs: seq<seq<T>>, e: T, overlaps: bool)
    requires forall k :: 0 <= k < |gs| ==> gs[k] != []
    ensures Flatten(Join(gs, e, overlaps)) == Flatten(gs) + [e]
  {
    if overlaps && gs != [] {
      var init, last := gs[..|gs| - 1], gs[|gs| - 1];
      assert gs == init + [last];
      FlattenSnoc(init, last);
      FlattenSnoc(init, last + [e]);
      assert Join(gs, e, overlaps) == init + [last + [e]];
    } else {
      FlattenSnoc(gs, [e]);
    }
  }

  /** The latest end among the events of a non-empty group. */
  function MaxEnd(g: seq<Event>): int
    requires g != []
  {
    if |g| == 1 then EndMs(g[0]) else Max(MaxEnd(g[..|g| - 1]), EndMs(Last(g)))
  }

  // ---------------------------------------------------------------------------
  // Specification of the column packing pass

  /** The columns of a group and, per event, the column it was put in. */
  datatype Packing = Packing(columns: seq<seq<Event>>, colOf: seq<nat>)

  function LastEnd(col: seq<Event>): int requires col != [] { EndMs(Last(col)) }

  /** The leftmost column whose last event has ended by `start`; |columns| if there is none. */
  function FirstFit(columns: seq<seq<Event>>, start: int): (c: nat)
    requires forall q :: 0 <= q < |columns| ==> columns[q] != []
    ensures c <= |columns|
    ensures c < |columns| ==> LastEnd(columns[c]) <= start
    ensures forall q :: 0 <= q < c ==> start < LastEnd(columns[q])
  {
    if columns == [] then 0
    else if LastEnd(columns[0]) <= start then 0
    else 1 + FirstFit(columns[1..], start)
  }

  /** The columns after the events of g have been placed one by one. */
  function Pack(g: seq<Event>): (p: Packing)
    ensures |p.colOf| == |g|
    ensures forall q :: 0 <= q < |p.columns| ==> p.columns[q] != []
    ensures forall i :: 0 <= i < |g| ==> p.colOf[i] < |p.columns|
    ensures g != [] ==> |p.columns| >= 1
  {
    if g == [] then Packing([], [])
    else PackStep(Pack(g[..|g| - 1]), Last(g))
  }

  /** Places one more event: into the first column that fits, or into a new column at the right. */
  function PackStep(p: Packing, e: Event): Packing
    requires forall q :: 0 <= q < |p.columns| ==> p.columns[q] != []
  {
    var c := FirstFit(p.columns, StartMs(e));
    var columns := if c < |p.columns| then p.columns[c := p.columns[c] + [e]] else p.columns + [[e]];
    Packing(columns, p.colOf + [c])
  }

  /** One group's events, in order, each with its column and the group's column count. */
  function PlaceGroup(g: seq<Event>): seq<Laid>
  {
    var p := Pack(g);
    seq(|g|, i requires 0 <= i < |g| => Laid(g[i], p.colOf[i], |p.columns|))
  }

  /** The groups' placed events, group after group. */
  function PlaceGroups(gs: seq<seq<Event>>): seq<Laid>
  {
    if gs == [] then [] else PlaceGroups(gs[..|gs| - 1]) + PlaceGroup(Last(gs))
  }

  /** What `getEventsWithLayout(dayEvents)` returns. */
  function LayoutOf(dayEvents: seq<Event>): (r: seq<Laid>)
    ensures EventsOf(r) == SortByStart(dayEvents)
  {
    var s := SortByStart(dayEvents);
    FlattenGroups(s);
    EventsOfPlaceGroups(Groups(s));
    PlaceGroups(Groups(s))
  }

  function EventsOf(ls: seq<Laid>): seq<Event>
  {
    seq(|ls|, i requires 0 <= i < |ls| => ls[i].event)
  }

  // ---------------------------------------------------------------------------
  // The engine

  method GetEventsWithLayout(dayEvents: seq<Event>) returns (laid: seq<Laid>)
    ensures laid == LayoutOf(dayEvents)
    ensures forall i :: 0 <= i < |laid| ==> laid[i].column < laid[i].columns
  {
    var sorted := SortByStart(dayEvents);
    var groups := GroupEvents(sorted);
    laid := PlaceAll(groups);
    LayoutColumnsInRange(dayEvents);
  }

  /** The placement pass: every group is packed, and its events get their column and the group's column count. */
  method PlaceAll(groups: seq<seq<Event>>) returns (laid: seq<Laid>)
    ensures laid == PlaceGroups(groups)
  {
    laid := [];
    var k := 0;
    while k < |groups|
      invariant 0 <= k <= |groups|
      invariant laid == PlaceGroups(groups[..k])
    {
      var group := groups[k];
      var columns, colOf := PackColumns(group);
      var placed := seq(|group|, q requires 0 <= q < |group| => Laid(group[q], colOf[q], |columns|));
      assert placed == PlaceGroup(group);
      assert groups[..k + 1][..k] == groups[..k];
      assert PlaceGroups(groups[..k + 1]) == PlaceGroups(groups[..k]) + PlaceGroup(group);
      laid := laid + placed;
      k := k + 1;
    }
    assert groups[..|groups|] == groups;
  }

  /** The grouping pass of `getEventsWithLayout`, over the sorted events. */
  method GroupEvents(sorted: seq<Event>) returns (groups: seq<seq<Event>>)
    ensures groups == Groups(sorted)
  {
    groups := [];
    var currentGroup: seq<Event> := [];
    var groupEnd := 0;
    var i := 0;
    while i < |sorted|
      invariant 0 <= i <= |sorted|
      invariant groupEnd == Watermark(sorted[..i])
      invariant (currentGroup == []) == (i == 0)
      invariant Groups(sorted[..i]) == if currentGroup == [] then groups else groups + [currentGroup]
    {
      var event := sorted[i];
      var start := StartMs(event);
      var end := EndMs(event);
      assert sorted[..i + 1][..i] == sorted[..i];
      assert Last(sorted[..i + 1]) == event;
      ghost var gs := Groups(sorted[..i]);
      assert Groups(sorted[..i + 1])
          == if start < Watermark(sorted[..i]) && gs != [] then gs[..|gs| - 1] + [Last(gs) + [event]] else gs + [[event]];
      if currentGroup != [] {
        assert gs[..|gs| - 1] == groups && Last(gs) == currentGroup;
      } else {
        assert sorted[..i] == [] && gs == [] && groups == [];
      }
      if start < groupEnd {
        assert gs == [] ==> currentGroup + [event] == [event];
        currentGroup := currentGroup + [event];
        groupEnd := Max(groupEnd, end);
        assert Groups(sorted[..i + 1]) == groups + [currentGroup];
      } else {
        if |currentGroup| > 0 { groups := groups + [currentGroup]; }
        currentGroup := [event];
        groupEnd := end;
        assert Groups(sorted[..i + 1]) == groups + [currentGroup];
      }
      i := i + 1;
    }
    if |currentGroup| > 0 { groups := groups + [currentGroup]; }
    assert sorted[..|sorted|] == sorted;
  }

  /** The column packing pass of `getEventsWithLayout` for one group. */
  method PackColumns(group: seq<Event>) returns (columns: seq<seq<Event>>, colOf: seq<nat>)
    ensures Packing(columns, colOf) == Pack(group)
  {
    columns, colOf := [], [];
    var j := 0;
    while j < |group|
      invariant 0 <= j <= |group|
      invariant Pack(group[..j]) == Packing(columns, colOf)
    {
      var event := group[j];
      assert group[..j + 1][..j] == group[..j];
      assert Pack(group[..j + 1]) == PackStep(Packing(columns, colOf), event);
      var c;
      columns, c := PlaceEvent(columns, event);
      colOf := colOf + [c];
      j := j + 1;
    }
    assert group[..|group|] == group;
  }

  /**
   * Places one event: scan the columns left to right, append the event to the
   * first whose last event has ended by its start and stop, or open a new
   * column when none has; c is the column the event went into.
   */
  method PlaceEvent(columns: seq<seq<Event>>, event: Event) returns (columns': seq<seq<Event>>, c: nat)
    requires forall q :: 0 <= q < |columns| ==> columns[q] != []
    ensures c == FirstFit(columns, StartMs(event))
    ensures columns' == if c < |columns| then columns[c := columns[c] + [event]] else columns + [[event]]
  {
    var currentStart := StartMs(event);
    columns' := columns;
    c := 0;
    var placed := false;
    while c < |columns'|
      invariant 0 <= c <= |columns'|
      invariant columns' == columns
      invariant forall q :: 0 <= q < c ==> currentStart < LastEnd(columns[q])
    {
      var col := columns'[c];
      var lastEnd := EndMs(col[|col| - 1]);
      if currentStart >= lastEnd {
        columns' := columns'[c := col + [event]];
        placed := true;
        break;
      }
      c := c + 1;
    }
    if !placed { columns' := columns' + [[event]]; }
  }

  // ---------------------------------------------------------------------------
  // Properties: every event exactly once, in start order

  lemma {:induction false} FlattenGroups(s: seq<Event>)
    ensures Flatten(Groups(s)) == s
    decreases |s|
  {
    if s != [] {
      var p := s[..|s| - 1];
      var e := Last(s);
      FlattenGroups(p);
      FlattenJoin(Groups(p), e, StartMs(e) < Watermark(p));
      assert s == p + [e];
    }
  }

  lemma {:induction false} EventsOfPlaceGroups(gs: seq<seq<Event>>)
    ensures EventsOf(PlaceGroups(gs)) == Flatten(gs)
    decreases |gs|
  {
    if gs != [] {
      var init := gs[..|gs| - 1];
      EventsOfPlaceGroups(init);
      var a := PlaceGroups(init);
      var b := PlaceGroup(Last(gs));
      assert EventsOf(a + b) == EventsOf(a) + EventsOf(b);
      assert EventsOf(b) == Last(gs);
    }
  }

  /** The layout holds every input event exactly once, in non-decreasing start order, ties in input order. */
  lemma {:induction false} LayoutKeepsEvents(dayEvents: seq<Event>)
    ensures EventsOf(LayoutOf(dayEvents)) == SortByStart(dayEvents)
    ensures |LayoutOf(dayEvents)| == |dayEvents|
    ensures multiset(EventsOf(LayoutOf(dayEvents))) == multiset(dayEvents)
    ensures forall i, j :: 0 <= i < j < |dayEvents| ==>
              StartMs(LayoutOf(dayEvents)[i].event) <= StartMs(LayoutOf(dayEvents)[j].event)
  {
    var s := SortByStart(dayEvents);
    FlattenGroups(s);
    EventsOfPlaceGroups(Groups(s));
    assert |EventsOf(LayoutOf(dayEvents))| == |LayoutOf(dayEvents)|;
    assert forall i :: 0 <= i < |dayEvents| ==> LayoutOf(dayEvents)[i].event == s[i] by {
      forall i | 0 <= i < |dayEvents| ensures LayoutOf(dayEvents)[i].event == s[i] {
        assert EventsOf(LayoutOf(dayEvents))[i] == s[i];
      }
    }
  }

  // ---------------------------------------------------------------------------
  // Properties: column indices and geometry

  lemma {:induction false} PlaceGroupsColumns(gs: seq<seq<Event>>)
    ensures forall i :: 0 <= i < |PlaceGroups(gs)| ==> PlaceGroups(gs)[i].column < PlaceGroups(gs)[i].columns
    decreases |gs|
  {
    if gs != [] {
      PlaceGroupsColumns(gs[..|gs| - 1]);
    }
  }

  /** Every event gets `0 <= column < W`, so `W >= 1`. */
  lemma {:induction false} LayoutColumnsInRange(dayEvents: seq<Event>)
    ensures forall i :: 0 <= i < |LayoutOf(dayEvents)| ==>
              LayoutOf(dayEvents)[i].column < LayoutOf(dayEvents)[i].columns
  {
    PlaceGroupsColumns(Groups(SortByStart(dayEvents)));
  }

  /** `left` and `width` stay inside the day column; one column means full width. */
  lemma {:induction false} Geometry(l: Laid)
    requires l.column < l.columns
    ensures 0.0 <= Left(l) && 0.0 < Width(l) <= 100.0
    ensures Left(l) + Width(l) <= 100.0
    ensures l.columns == 1 ==> Left(l) == 0.0 && Width(l) == 100.0
  {
    var c, w := l.column as real, l.columns as real;
    assert Left(l) == c * 100.0 / w;
    assert Left(l) + Width(l) == (c + 1.0) * 100.0 / w;
    assert (c + 1.0) * 100.0 <= w * 100.0;
  }

  /** A group of one event is laid out at `left = 0, width = 100`. */
  lemma {:induction false} SingletonGroup(e: Event)
    ensures PlaceGroup([e]) == [Laid(e, 0, 1)]
    ensures Left(Laid(e, 0, 1)) == 0.0 && Width(Laid(e, 0, 1)) == 100.0
  {
    assert [e][..0] == [];
    assert Pack([e]) == Packing([[e]], [0]);
    assert PlaceGroup([e])[0] == Laid(e, 0, 1);
  }

  // ---------------------------------------------------------------------------
  // Properties of the grouping pass

  lemma {:induction false} MaxEndSnoc(g: seq<Event>, e: Event)
    requires g != []
    ensures MaxEnd(g + [e]) == Max(MaxEnd(g), EndMs(e))
  {
    assert (g + [e])[..|g|] == g;
  }

  /** The watermark is the latest end of the current group (it can only be higher when the first start is negative). */
  lemma {:induction false} WatermarkIsGroupEnd(s: seq<Event>)
    requires s != []
    ensures Watermark(s) >= MaxEnd(Last(Groups(s)))
    ensures StartMs(s[0]) >= 0 ==> Watermark(s) == MaxEnd(Last(Groups(s)))
    decreases |s|
  {
    var p := s[..|s| - 1];
    var e := Last(s);
    var gs := Groups(p);
    if p != [] {
      assert p[0] == s[0];
      WatermarkIsGroupEnd(p);
    }
    if StartMs(e) < Watermark(p) && gs != [] {
      var r := gs[..|gs| - 1] + [Last(gs) + [e]];
      assert Last(r) == Last(gs) + [e];
      MaxEndSnoc(Last(gs), e);
    } else {
      if p == [] { assert s[0] == e; }
    }
  }

  /** Within each group, every event after the first starts before the latest end of those before it. */
  ghost predicate Chained(gs: seq<seq<Event>>)
    requires forall k :: 0 <= k < |gs| ==> gs[k] != []
  {
    forall k, j :: 0 <= k < |gs| && 0 < j < |gs[k]| ==> StartMs(gs[k][j]) < MaxEnd(gs[k][..j])
  }

  /** Every group after the first starts at or after the latest end of the group before it. */
  ghost predicate Cut(gs: seq<seq<Event>>)
    requires forall k :: 0 <= k < |gs| ==> gs[k] != []
  {
    forall k :: 0 <= k < |gs| - 1 ==> MaxEnd(gs[k]) <= StartMs(gs[k + 1][0])
  }

  lemma {:induction false} JoinKeepsChainedCut(gs: seq<seq<Event>>, e: Event)
    requires gs != [] && forall k :: 0 <= k < |gs| ==> gs[k] != []
    requires Chained(gs) && Cut(gs)
    requires StartMs(e) < MaxEnd(Last(gs))
    ensures var r := gs[..|gs| - 1] + [Last(gs) + [e]]; Chained(r) && Cut(r)
  {
    var init := gs[..|gs| - 1];
    var L := Last(gs);
    var r := init + [L + [e]];
    forall k, j | 0 <= k < |r| && 0 < j < |r[k]| ensures StartMs(r[k][j]) < MaxEnd(r[k][..j]) {
      if k < |init| {
        assert r[k] == gs[k];
      } else if j < |L| {
        assert r[k][j] == L[j] && r[k][..j] == L[..j];
        assert gs[|gs| - 1] == L;
      } else {
        assert r[k][..j] == L;
      }
    }
    forall k | 0 <= k < |r| - 1 ensures MaxEnd(r[k]) <= StartMs(r[k + 1][0]) {
      assert r[k] == gs[k];
      if k + 1 < |init| {
        assert r[k + 1] == gs[k + 1];
      } else {
        assert r[k + 1][0] == L[0] == gs[k + 1][0];
      }
    }
  }

  lemma {:induction false} NewGroupKeepsChainedCut(gs: seq<seq<Event>>, e: Event)
    requires forall k :: 0 <= k < |gs| ==> gs[k] != []
    requires Chained(gs) && Cut(gs)
    requires gs != [] ==> MaxEnd(Last(gs)) <= StartMs(e)
    ensures Chained(gs + [[e]]) && Cut(gs + [[e]])
  {
    var r := gs + [[e]];
    forall k, j | 0 <= k < |r| && 0 < j < |r[k]| ensures StartMs(r[k][j]) < MaxEnd(r[k][..j]) {
      assert k < |gs| && r[k] == gs[k];
    }
    forall k | 0 <= k < |r| - 1 ensures MaxEnd(r[k]) <= StartMs(r[k + 1][0]) {
      assert r[k] == gs[k];
      if k + 1 < |gs| {
        assert r[k + 1] == gs[k + 1];
      } else {
        assert r[k + 1] == [e];
      }
    }
  }

  /**
   * The groups are exactly the ones the watermark rule cuts: within a group
   * every event after the first starts before the latest end of those before
   * it, and every group after the first starts at or after the latest end of
   * the group before it. (Start times are taken non-negative, as the
   * watermark starts at 0.)
   */
  lemma {:induction false} GroupsCharacterised(s: seq<Event>)
    requires s != [] ==> StartMs(s[0]) >= 0
    ensures Chained(Groups(s)) && Cut(Groups(s))
    decreases |s|
  {
    if s != [] {
      var p := s[..|s| - 1];
      var e := Last(s);
      var gs := Groups(p);
      if p != [] {
        assert p[0] == s[0];
        GroupsCharacterised(p);
        WatermarkIsGroupEnd(p);
      }
      if StartMs(e) < Watermark(p) && gs != [] {
        JoinKeepsChainedCut(gs, e);
      } else {
        NewGroupKeepsChainedCut(gs, e);
      }
    }
  }

  /** No event of the day ends after the watermark. */
  lemma {:induction false} WatermarkCoversAll(s: seq<Event>)
    requires forall i :: 0 <= i < |s| ==> WellFormed(s[i])
    ensures forall x :: x in s ==> EndMs(x) <= Watermark(s)
    decreases |s|
  {
    if s != [] {
      var p := s[..|s| - 1];
      WatermarkCoversAll(p);
      assert s == p + [Last(s)];
    }
  }

  /** Every group's first event starts no later than its others. */
  ghost predicate FirstEarliest(gs: seq<seq<Event>>)
    requires forall k :: 0 <= k < |gs| ==> gs[k] != []
  {
    forall k, m :: 0 <= k < |gs| && 0 <= m < |gs[k]| ==> StartMs(gs[k][0]) <= StartMs(gs[k][m])
  }

  /** Every event of an earlier group ends by the start of a later group. */
  ghost predicate Separated(gs: seq<seq<Event>>)
    requires forall k :: 0 <= k < |gs| ==> gs[k] != []
  {
    forall k, x :: 0 <= k < |gs| && x in Flatten(gs[..k]) ==> EndMs(x) <= StartMs(gs[k][0])
  }

  lemma {:induction false} JoinKeepsSeparated(gs: seq<seq<Event>>, e: Event)
    requires gs != [] && forall k :: 0 <= k < |gs| ==> gs[k] != []
    requires FirstEarliest(gs) && Separated(gs)
    requires forall x :: x in Flatten(gs) ==> StartMs(x) <= StartMs(e)
    ensures var r := gs[..|gs| - 1] + [Last(gs) + [e]]; FirstEarliest(r) && Separated(r)
  {
    var init := gs[..|gs| - 1];
    var L := Last(gs);
    var r := init + [L + [e]];
    assert L[0] in Flatten(gs) by {
      FlattenAppend(init, [L]);
      assert gs == init + [L];
      assert Flatten([L]) == L by { assert [L][..0] == []; }
    }
    forall k, m | 0 <= k < |r| && 0 <= m < |r[k]| ensures StartMs(r[k][0]) <= StartMs(r[k][m]) {
      if k < |init| {
        assert r[k] == gs[k];
      } else if m < |L| {
        assert r[k][0] == L[0] == gs[k][0] && r[k][m] == L[m] == gs[k][m];
      } else {
        assert r[k][0] == L[0] && r[k][m] == e;
      }
    }
    forall k, x | 0 <= k < |r| && x in Flatten(r[..k]) ensures EndMs(x) <= StartMs(r[k][0]) {
      assert r[..k] == gs[..k];
      if k < |init| {
        assert r[k] == gs[k];
      } else {
        assert r[k][0] == L[0] == gs[k][0];
      }
    }
  }

  lemma {:induction false} NewGroupKeepsSeparated(gs: seq<seq<Event>>, e: Event)
    requires forall k :: 0 <= k < |gs| ==> gs[k] != []
    requires FirstEarliest(gs) && Separated(gs)
    requires forall x :: x in Flatten(gs) ==> EndMs(x) <= StartMs(e)
    ensures FirstEarliest(gs + [[e]]) && Separated(gs + [[e]])
  {
    var r := gs + [[e]];
    forall k, m | 0 <= k < |r| && 0 <= m < |r[k]| ensures StartMs(r[k][0]) <= StartMs(r[k][m]) {
      if k < |gs| { assert r[k] == gs[k]; }
    }
    forall k, x | 0 <= k < |r| && x in Flatten(r[..k]) ensures EndMs(x) <= StartMs(r[k][0]) {
      if k < |gs| {
        assert r[..k] == gs[..k] && r[k] == gs[k];
      } else {
        assert r[..k] == gs && r[k][0] == e;
      }
    }
  }

  /**
   * Over start-sorted, well-formed events, every group's first event starts
   * no later than its others, and every event of an earlier group ends by the
   * start of a later group.
   */
  lemma {:induction false} GroupsSeparated(s: seq<Event>)
    requires forall i :: 0 <= i < |s| ==> WellFormed(s[i])
    requires forall i, j :: 0 <= i < j < |s| ==> StartMs(s[i]) <= StartMs(s[j])
    ensures FirstEarliest(Groups(s)) && Separated(Groups(s))
    decreases |s|
  {
    if s != [] {
      var p := s[..|s| - 1];
      var e := Last(s);
      var gs := Groups(p);
      GroupsSeparated(p);
      FlattenGroups(p);
      if StartMs(e) < Watermark(p) && gs != [] {
        forall x | x in p ensures StartMs(x) <= StartMs(e) {
          var idx :| 0 <= idx < |p| && p[idx] == x;
          assert s[idx] == x;
        }
        JoinKeepsSeparated(gs, e);
      } else {
        WatermarkCoversAll(p);
        NewGroupKeepsSeparated(gs, e);
      }
    }
  }

  // ---------------------------------------------------------------------------
  // Properties of the column packing pass

  lemma {:induction false} PackPrefix(g: seq<Event>, n: nat)
    requires n <= |g|
    ensures Pack(g[..n]).colOf == Pack(g).colOf[..n]
    decreases |g|
  {
    if n < |g| {
      var h := g[..|g| - 1];
      assert g[..n] == h[..n];
      PackPrefix(h, n);
    } else {
      assert g[..n] == g;
    }
  }

  /**
   * First fit: event i of a group goes into the leftmost column whose last
   * event (among those placed before it) has ended by its start, or into a new
   * column when no such column exists; earlier placements are never revised.
   */
  lemma {:induction false} PlacementIsFirstFit(g: seq<Event>, i: nat)
    requires i < |g|
    ensures Pack(g[..i]).colOf == Pack(g).colOf[..i]
    ensures var cols := Pack(g[..i]).columns; var c := Pack(g).colOf[i];
      && c <= |cols|
      && (c < |cols| ==> LastEnd(cols[c]) <= StartMs(g[i]))
      && (c == |cols| ==> forall q :: 0 <= q < |cols| ==> StartMs(g[i]) < LastEnd(cols[q]))
      && (forall q :: 0 <= q < c ==> StartMs(g[i]) < LastEnd(cols[q]))
  {
    PackPrefix(g, i);
    PackPrefix(g, i + 1);
    var h := g[..i + 1];
    assert h[..i] == g[..i] && Last(h) == g[i];
    assert Pack(g).colOf[i] == Pack(h).colOf[i];
  }

  /**
   * Two events of a group that share a column do not overlap: the earlier one
   * has ended by the time the later one starts.
   */
  lemma {:induction false} PackNoOverlap(g: seq<Event>)
    requires forall i :: 0 <= i < |g| ==> WellFormed(g[i])
    ensures forall i :: 0 <= i < |g| ==> EndMs(g[i]) <= LastEnd(Pack(g).columns[Pack(g).colOf[i]])
    ensures forall i, j :: 0 <= i < j < |g| && Pack(g).colOf[i] == Pack(g).colOf[j] ==>
              EndMs(g[i]) <= StartMs(g[j])
    decreases |g|
  {
    if g != [] {
      var h := g[..|g| - 1];
      var e := Last(g);
      var p := Pack(h);
      var P := Pack(g);
      var c := FirstFit(p.columns, StartMs(e));
      PackNoOverlap(h);
      assert P.colOf == p.colOf + [c];
      forall i | 0 <= i < |g| ensures EndMs(g[i]) <= LastEnd(P.columns[P.colOf[i]]) {
        if i < |h| {
          assert g[i] == h[i];
          if p.colOf[i] != c {
            assert P.columns[p.colOf[i]] == p.columns[p.colOf[i]];
          }
        }
      }
      forall i, j | 0 <= i < j < |g| && P.colOf[i] == P.colOf[j] ensures EndMs(g[i]) <= StartMs(g[j]) {
        assert g[i] == h[i];
        if j < |h| {
          assert g[j] == h[j];
        }
      }
    }
  }

  // ---------------------------------------------------------------------------
  // The layout as a whole

  /** Of two laid-out events with the same column index, the earlier has ended when the later starts. */
  ghost predicate NoColumnOverlap(ls: seq<Laid>)
  {
    forall i, j :: 0 <= i < j < |ls| && ls[i].column == ls[j].column ==> EndMs(ls[i].event) <= StartMs(ls[j].event)
  }

  lemma {:induction false} PlaceGroupNoOverlap(g: seq<Event>)
    requires forall i :: 0 <= i < |g| ==> WellFormed(g[i])
    ensures NoColumnOverlap(PlaceGroup(g))
  {
    PackNoOverlap(g);
  }

  /** Two runs of laid-out events without overlap, the first ending before the second starts, have none together. */
  lemma {:induction false} AppendNoOverlap(a: seq<Laid>, b: seq<Laid>)
    requires NoColumnOverlap(a) && NoColumnOverlap(b)
    requires forall i, j :: 0 <= i < |a| && 0 <= j < |b| ==> EndMs(a[i].event) <= StartMs(b[j].event)
    ensures NoColumnOverlap(a + b)
  {
    var out := a + b;
    forall i, j | 0 <= i < j < |out| && out[i].column == out[j].column
      ensures EndMs(out[i].event) <= StartMs(out[j].event)
    {
      if j < |a| {
        assert out[i] == a[i] && out[j] == a[j];
      } else if i >= |a| {
        assert out[i] == b[i - |a|] && out[j] == b[j - |a|];
      } else {
        assert out[i] == a[i] && out[j] == b[j - |a|];
      }
    }
  }

  lemma {:induction false} PlaceGroupsNoOverlap(gs: seq<seq<Event>>)
    requires forall k :: 0 <= k < |gs| ==> gs[k] != []
    requires forall k, m :: 0 <= k < |gs| && 0 <= m < |gs[k]| ==> WellFormed(gs[k][m])
    requires forall k, m :: 0 <= k < |gs| && 0 <= m < |gs[k]| ==> StartMs(gs[k][0]) <= StartMs(gs[k][m])
    requires forall k, x :: 0 <= k < |gs| && x in Flatten(gs[..k]) ==> EndMs(x) <= StartMs(gs[k][0])
    ensures NoColumnOverlap(PlaceGroups(gs))
    decreases |gs|
  {
    if gs != [] {
      var init := gs[..|gs| - 1];
      var g := Last(gs);
      assert forall k :: 0 <= k < |init| ==> init[..k] == gs[..k];
      PlaceGroupsNoOverlap(init);
      PlaceGroupNoOverlap(g);
      var a := PlaceGroups(init);
      var b := PlaceGroup(g);
      EventsOfPlaceGroups(init);
      assert gs[..|init|] == init;
      forall i, j | 0 <= i < |a| && 0 <= j < |b| ensures EndMs(a[i].event) <= StartMs(b[j].event) {
        assert a[i].event == EventsOf(a)[i];
        assert b[j].event == g[j];
      }
      AppendNoOverlap(a, b);
    }
  }

  /** Start-sorted, well-formed events cut into groups meet what the overlap proof asks of the groups. */
  lemma {:induction false} GroupsReady(s: seq<Event>)
    requires forall i :: 0 <= i < |s| ==> WellFormed(s[i])
    requires forall i, j :: 0 <= i < j < |s| ==> StartMs(s[i]) <= StartMs(s[j])
    ensures var gs := Groups(s);
      && (forall k, m :: 0 <= k < |gs| && 0 <= m < |gs[k]| ==> WellFormed(gs[k][m]))
      && FirstEarliest(gs) && Separated(gs)
  {
    var gs := Groups(s);
    GroupsSeparated(s);
    FlattenGroups(s);
    forall k, m | 0 <= k < |gs| && 0 <= m < |gs[k]| ensures WellFormed(gs[k][m]) {
      FlattenMember(gs, k, m);
    }
  }

  /**
   * Events of one day that share a column never overlap in time: of two
   * events laid out in the same column, the earlier has ended when the later
   * starts. So temporally overlapping events sit side by side.
   */
  lemma {:induction false} LayoutNoOverlap(dayEvents: seq<Event>)
    requires forall i :: 0 <= i < |dayEvents| ==> WellFormed(dayEvents[i])
    ensures forall i, j :: 0 <= i < j < |LayoutOf(dayEvents)| && LayoutOf(dayEvents)[i].column == LayoutOf(dayEvents)[j].column ==>
              EndMs(LayoutOf(dayEvents)[i].event) <= StartMs(LayoutOf(dayEvents)[j].event)
  {
    var s := SortByStart(dayEvents);
    forall i | 0 <= i < |s| ensures WellFormed(s[i]) {
      assert s[i] in multiset(dayEvents);
    }
    GroupsReady(s);
    PlaceGroupsNoOverlap(Groups(s));
    assert NoColumnOverlap(LayoutOf(dayEvents));
  }
}
