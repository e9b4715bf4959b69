/**
 * The rules of `main` that turn the loaded tables into what the tabs show: the default date
 * window, the sidebar filters, the key metrics, the budget columns and totals, and the stale
 * items. Dates are day numbers counted from 1970-01-01.
 */
module Dashboard {
  import opened Wrappers
  import opened Seqs
  import opened Text
  import opened Records
  import opened Formatting

  // ---------------------------------------------------------------------------
  // Dates and the default window
  // ---------------------------------------------------------------------------

  const SecondsPerDay := 86400

  /** `.dt.date` of a UTC timestamp: the day it falls on. */
  function DayOf(t: int): int {
    t / SecondsPerDay
  }

  /** `date.weekday()`, Monday being 0: day 0 (1970-01-01) was a Thursday. */
  function Weekday(d: int): (w: int)
    ensures 0 <= w < 7
  {
    (d + 3) % 7
  }

  /** `today - timedelta(days=(today.weekday() + 1) % 7)`. */
  function LastSunday(today: int): (r: int)
    ensures Weekday(r) == 6
    ensures today - 6 <= r <= today
    ensures Weekday(today) == 6 ==> r == today
  {
    var w := Weekday(today);
    assert today + 3 == 7 * ((today + 3) / 7) + w;
    today - (w + 1) % 7
  }

  datatype Window = Window(start: int, end: int)

  function Min(a: int, b: int): int {
    if a <= b then a else b
  }

  function Max(a: int, b: int): int {
    if a >= b then a else b
  }

  /**
   * The default `(start, end)`: the two weeks up to the last Sunday, clipped to the data's dates;
   * when clipping leaves it empty, the last 14 days of the data.
   */
  function DefaultWindow(today: int, minDate: int, maxDate: int): (w: Window)
    ensures minDate <= maxDate ==> minDate <= w.start <= w.end <= maxDate
    ensures w.end - w.start <= 14
    ensures var ls := LastSunday(today);
            minDate <= ls - 14 && ls <= maxDate ==> w == Window(ls - 14, ls)
  {
    var ls := LastSunday(today);
    var end := Min(ls, maxDate);
    var start := Max(ls - 14, minDate);
    if start > end then Window(Max(maxDate - 14, minDate), maxDate) else Window(start, end)
  }

  /**
   * `start_date, end_date = date_range`, or both the single date picked so far; an empty tuple
   * makes `date_range[0]` raise `IndexError`, which is `None` here.
   */
  function UnpackDateRange(r: seq<int>): (w: Option<Window>)
    ensures w.None? <==> |r| == 0
    ensures w.Some? ==> w.value.start == r[0]
    ensures w.Some? && |r| == 2 ==> w.value.end == r[1]
    ensures w.Some? && |r| != 2 ==> w.value.end == r[0]
    ensures w.Some? && (|r| == 2 ==> r[0] <= r[1]) ==> w.value.start <= w.value.end
  {
    if |r| == 2 then Some(Window(r[0], r[1]))
    else if |r| == 0 then None
    else Some(Window(r[0], r[0]))
  }

  /** A timestamp whose day lies in the window; a null timestamp never does. */
  predicate OnDays(t: Option<int>, w: Window) {
    t.Some? && w.start <= DayOf(t.value) <= w.end
  }

  // ---------------------------------------------------------------------------
  // The sidebar filters
  // ---------------------------------------------------------------------------

  /** `column.isin(values)`: a null cell never matches. */
  predicate NameIn(v: Option<string>, sel: seq<string>) {
    v.Some? && v.value in sel
  }

  /** `[k for k, v in names.items() if v in selected]`, as the set `isin` tests against. */
  function IdsNamed(names: map<int, string>, sel: seq<string>): set<int> {
    set k | k in names && names[k] in sel
  }

  /** The id column matches one of the selected names. */
  predicate NamedIdIn(v: Option<int>, names: map<int, string>, sel: seq<string>) {
    v.Some? && v.value in IdsNamed(names, sel)
  }

  /** `filtered_workitems['archived'] != True`: a null flag keeps the item. */
  function NotArchived(items: seq<WorkItem>): (r: seq<WorkItem>)
    ensures IsSubseq(r, items)
    ensures forall x :: x in r <==> x in items && x.archived != Some(true)
    ensures forall x :: multiset(r)[x] == if x.archived != Some(true) then multiset(items)[x] else 0
  {
    var keep := (x: WorkItem) => x.archived != Some(true);
    FilterCount(items, keep);
    Filter(items, keep)
  }

  /** The date filter on `date_added`. */
  function InWindow(items: seq<WorkItem>, w: Window): (r: seq<WorkItem>)
    ensures IsSubseq(r, items)
    ensures forall x :: x in r <==> x in items && OnDays(x.dateAdded, w)
    ensures forall x :: multiset(r)[x] == if OnDays(x.dateAdded, w) then multiset(items)[x] else 0
  {
    var keep := (x: WorkItem) => OnDays(x.dateAdded, w);
    FilterCount(items, keep);
    Filter(items, keep)
  }

  /** A user filter: no filtering when "All" is selected, else `column.isin(selected)`. */
  function BySelection(items: seq<WorkItem>, sel: seq<string>, pick: WorkItem -> Option<string>): (r: seq<WorkItem>)
    ensures IsSubseq(r, items)
    ensures "All" in sel ==> r == items
    ensures "All" !in sel ==> forall x :: x in r <==> x in items && NameIn(pick(x), sel)
    ensures forall x :: multiset(r)[x] == if NamePass(pick(x), sel) then multiset(items)[x] else 0
  {
    if "All" in sel then
      SubseqReflexive(items);
      items
    else
      var keep := (x: WorkItem) => NameIn(pick(x), sel);
      FilterCount(items, keep);
      Filter(items, keep)
  }

  /** An id filter: no filtering when "All" is selected, else the ids whose names are selected. */
  function ByNamedId(items: seq<WorkItem>, names: map<int, string>, sel: seq<string>,
                     pick: WorkItem -> Option<int>): (r: seq<WorkItem>)
    ensures IsSubseq(r, items)
    ensures "All" in sel ==> r == items
    ensures "All" !in sel ==> forall x :: x in r <==>
              x in items && pick(x).Some? && pick(x).value in names && names[pick(x).value] in sel
    ensures forall x :: multiset(r)[x] == if IdPass(pick(x), names, sel) then multiset(items)[x] else 0
  {
    if "All" in sel then
      SubseqReflexive(items);
      items
    else
      var keep := (x: WorkItem) => NamedIdIn(pick(x), names, sel);
      FilterCount(items, keep);
      Filter(items, keep)
  }

  datatype Completion = AllItems | Completed | InProgress

  /** The completion radio: completed items have a `completed_at`, items in progress have none. */
  function ByCompletion(items: seq<WorkItem>, c: Completion): (r: seq<WorkItem>)
    ensures IsSubseq(r, items)
    ensures c == AllItems ==> r == items
    ensures c == Completed ==> forall x :: x in r <==> x in items && x.completedAt.Some?
    ensures c == InProgress ==> forall x :: x in r <==> x in items && x.completedAt.None?
    ensures forall x :: multiset(r)[x] == if CompletionPass(x, c) then multiset(items)[x] else 0
  {
    match c
    case AllItems =>
      SubseqReflexive(items);
      items
    case Completed =>
      var keep := (x: WorkItem) => x.completedAt.Some?;
      FilterCount(items, keep);
      Filter(items, keep)
    case InProgress =>
      var keep := (x: WorkItem) => x.completedAt.None?;
      FilterCount(items, keep);
      Filter(items, keep)
  }

  /** The sidebar's choices. */
  datatype Filters = Filters(window: Window, assignees: seq<string>, authors: seq<string>,
                             workTypes: seq<string>, priorities: seq<string>, boards: seq<string>,
                             lanes: seq<string>, completion: Completion)

  /** The id-to-name dictionaries of the lookup tables. */
  datatype Names = Names(workTypes: map<int, string>, priorities: map<int, string>,
                         boards: map<int, string>, lanes: map<int, string>)

  /** The archived, date and user filters, the first half of the sidebar's filters. */
  function PeopleFilters(items: seq<WorkItem>, f: Filters): seq<WorkItem> {
    var a := NotArchived(items);
    var b := InWindow(a, f.window);
    var c := BySelection(b, f.assignees, (x: WorkItem) => x.assignee);
    BySelection(c, f.authors, (x: WorkItem) => x.author)
  }

  /** The work type and priority filters. */
  function KindFilters(items: seq<WorkItem>, f: Filters, n: Names): seq<WorkItem> {
    var e := ByNamedId(items, n.workTypes, f.workTypes, (x: WorkItem) => x.workTypeId);
    ByNamedId(e, n.priorities, f.priorities, (x: WorkItem) => x.priorityId)
  }

  /** The board and lane filters. */
  function PlaceFilters(items: seq<WorkItem>, f: Filters, n: Names): seq<WorkItem> {
    var h := ByNamedId(items, n.boards, f.boards, (x: WorkItem) => x.boardId);
    ByNamedId(h, n.lanes, f.lanes, (x: WorkItem) => x.laneId)
  }

  /** The type, priority, board, lane and completion filters, the second half. */
  function FieldFilters(items: seq<WorkItem>, f: Filters, n: Names): seq<WorkItem> {
    ByCompletion(PlaceFilters(KindFilters(items, f, n), f, n), f.completion)
  }

  /** The filters, applied in the order `main` applies them. */
  function FilterWorkItems(items: seq<WorkItem>, f: Filters, n: Names): seq<WorkItem> {
    FieldFilters(PeopleFilters(items, f), f, n)
  }

  /** A name filter passes an item when "All" is selected or its value is a selected one. */
  predicate NamePass(v: Option<string>, sel: seq<string>) {
    "All" in sel || NameIn(v, sel)
  }

  predicate IdPass(v: Option<int>, names: map<int, string>, sel: seq<string>) {
    "All" in sel || NamedIdIn(v, names, sel)
  }

  predicate CompletionPass(x: WorkItem, c: Completion) {
    match c
    case AllItems => true
    case Completed => x.completedAt.Some?
    case InProgress => x.completedAt.None?
  }

  predicate PeoplePass(x: WorkItem, f: Filters) {
    && x.archived != Some(true)
    && OnDays(x.dateAdded, f.window)
    && NamePass(x.assignee, f.assignees)
    && NamePass(x.author, f.authors)
  }

  predicate KindPass(x: WorkItem, f: Filters, n: Names) {
    IdPass(x.workTypeId, n.workTypes, f.workTypes) && IdPass(x.priorityId, n.priorities, f.priorities)
  }

  predicate PlacePass(x: WorkItem, f: Filters, n: Names) {
    IdPass(x.boardId, n.boards, f.boards) && IdPass(x.laneId, n.lanes, f.lanes)
  }

  predicate FieldPass(x: WorkItem, f: Filters, n: Names) {
    KindPass(x, f, n) && PlacePass(x, f, n) && CompletionPass(x, f.completion)
  }

  /** Every condition of the sidebar holds of the item. */
  predicate Passes(x: WorkItem, f: Filters, n: Names) {
    PeoplePass(x, f) && FieldPass(x, f, n)
  }

  lemma PeopleFiltersSpec(items: seq<WorkItem>, f: Filters)
    ensures var r := PeopleFilters(items, f);
            && IsSubseq(r, items)
            && (forall x :: x in r <==> x in items && PeoplePass(x, f))
            && forall x :: multiset(r)[x] == if PeoplePass(x, f) then multiset(items)[x] else 0
  {
    var a := NotArchived(items);
    var b := InWindow(a, f.window);
    var c := BySelection(b, f.assignees, (x: WorkItem) => x.assignee);
    var d := BySelection(c, f.authors, (x: WorkItem) => x.author);
    SubseqTransitive(b, a, items);
    SubseqTransitive(c, b, items);
    SubseqTransitive(d, c, items);
  }

  lemma KindFiltersSpec(items: seq<WorkItem>, f: Filters, n: Names)
    ensures var r := KindFilters(items, f, n);
            && IsSubseq(r, items)
            && (forall x :: x in r <==> x in items && KindPass(x, f, n))
            && forall x :: multiset(r)[x] == if KindPass(x, f, n) then multiset(items)[x] else 0
  {
    var e := ByNamedId(items, n.workTypes, f.workTypes, (x: WorkItem) => x.workTypeId);
    var g := ByNamedId(e, n.priorities, f.priorities, (x: WorkItem) => x.priorityId);
    SubseqTransitive(g, e, items);
  }

  lemma PlaceFiltersSpec(items: seq<WorkItem>, f: Filters, n: Names)
    ensures var r := PlaceFilters(items, f, n);
            && IsSubseq(r, items)
            && (forall x :: x in r <==> x in items && PlacePass(x, f, n))
            && forall x :: multiset(r)[x] == if PlacePass(x, f, n) then multiset(items)[x] else 0
  {
    var h := ByNamedId(items, n.boards, f.boards, (x: WorkItem) => x.boardId);
    var k := ByNamedId(h, n.lanes, f.lanes, (x: WorkItem) => x.laneId);
    SubseqTransitive(k, h, items);
  }

  lemma FieldFiltersSpec(items: seq<WorkItem>, f: Filters, n: Names)
    ensures var r := FieldFilters(items, f, n);
            && IsSubseq(r, items)
            && (forall x :: x in r <==> x in items && FieldPass(x, f, n))
            && forall x :: multiset(r)[x] == if FieldPass(x, f, n) then multiset(items)[x] else 0
  {
    var g := KindFilters(items, f, n);
    var k := PlaceFilters(g, f, n);
    var r := ByCompletion(k, f.completion);
    KindFiltersSpec(items, f, n);
    PlaceFiltersSpec(g, f, n);
    SubseqTransitive(k, g, items);
    SubseqTransitive(r, k, items);
  }

  /**
   * The filtered items are a sub-table of the items (order kept) holding exactly the items that
   * pass every filter.
   */
  lemma FilterWorkItemsSpec(items: seq<WorkItem>, f: Filters, n: Names)
    ensures var r := FilterWorkItems(items, f, n);
            && IsSubseq(r, items)
            && (forall x :: x in r <==> x in items && Passes(x, f, n))
            && forall x :: multiset(r)[x] == if Passes(x, f, n) then multiset(items)[x] else 0
  {
    var p := PeopleFilters(items, f);
    PeopleFiltersSpec(items, f);
    FieldFiltersSpec(p, f, n);
    SubseqTransitive(FieldFilters(p, f, n), p, items);
  }

  /** The time entries of the window, by author when assignees are selected. */
  function FilterTimeEntries(entries: seq<TimeEntry>, w: Window, assignees: seq<string>): (r: seq<TimeEntry>)
    ensures IsSubseq(r, entries)
    ensures forall e :: e in r <==> e in entries && OnDays(e.startDate, w) && NamePass(e.author, assignees)
    ensures forall e :: multiset(r)[e] ==
              if OnDays(e.startDate, w) && NamePass(e.author, assignees) then multiset(entries)[e] else 0
  {
    var onDays := (e: TimeEntry) => OnDays(e.startDate, w);
    FilterCount(entries, onDays);
    var inWindow := Filter(entries, onDays);
    if "All" in assignees then inWindow
    else
      var byAuthor := (e: TimeEntry) => NameIn(e.author, assignees);
      FilterCount(inWindow, byAuthor);
      var r := Filter(inWindow, byAuthor);
      SubseqTransitive(r, inWindow, entries);
      r
  }

  // ---------------------------------------------------------------------------
  // Key metrics
  // ---------------------------------------------------------------------------

  function CompletedCount(items: seq<WorkItem>): nat {
    |Filter(items, (x: WorkItem) => x.completedAt.Some?)|
  }

  function InProgressCount(items: seq<WorkItem>): nat {
    |Filter(items, (x: WorkItem) => x.completedAt.None?)|
  }

  /** Completed and in-progress items together are all the filtered items. */
  lemma CountsAddUp(items: seq<WorkItem>)
    ensures CompletedCount(items) + InProgressCount(items) == |items|
  {
    FilterPartition(items, (x: WorkItem) => x.completedAt.Some?, (x: WorkItem) => x.completedAt.None?);
  }

  // ---------------------------------------------------------------------------
  // Budget vs actuals
  // ---------------------------------------------------------------------------

  /** `likely_estimate.fillna(0) * 3600`. */
  function EstimatedSeconds(x: WorkItem): int {
    x.likelyEstimate.GetOr(0) * 3600
  }

  /** `time_spent_seconds.fillna(0)`. */
  function ActualSeconds(x: WorkItem): int {
    x.timeSpentSeconds.GetOr(0)
  }

  /** `actual_seconds - estimated_seconds`. */
  function VarianceSeconds(x: WorkItem): int {
    ActualSeconds(x) - EstimatedSeconds(x)
  }

  function SumEstimated(rows: seq<WorkItem>): int {
    if rows == [] then 0 else SumEstimated(rows[..|rows| - 1]) + EstimatedSeconds(rows[|rows| - 1])
  }

  function SumActual(rows: seq<WorkItem>): int {
    if rows == [] then 0 else SumActual(rows[..|rows| - 1]) + ActualSeconds(rows[|rows| - 1])
  }

  /** The `variance_seconds` column summed, as the per-board aggregation does. */
  function SumVariance(rows: seq<WorkItem>): int {
    if rows == [] then 0 else SumVariance(rows[..|rows| - 1]) + VarianceSeconds(rows[|rows| - 1])
  }

  /** Summing the per-row variances gives total actual minus total estimated. */
  lemma {:induction false} TotalVariance(rows: seq<WorkItem>)
    ensures SumVariance(rows) == SumActual(rows) - SumEstimated(rows)
    decreases |rows|
  {
    if rows != [] {
      TotalVariance(rows[..|rows| - 1]);
    }
  }

  /** A group of rows is over budget exactly when its actual time exceeds its estimate, and so on. */
  lemma StatusBySums(rows: seq<WorkItem>)
    ensures BudgetStatus(SumVariance(rows)) == OverBudget <==> SumActual(rows) > SumEstimated(rows)
    ensures BudgetStatus(SumVariance(rows)) == UnderBudget <==> SumActual(rows) < SumEstimated(rows)
    ensures BudgetStatus(SumVariance(rows)) == OnTarget <==> SumActual(rows) == SumEstimated(rows)
  {
    TotalVariance(rows);
  }

  /**
   * The per-board variance text with the sign kept in front of the magnitude (the intended
   * format): it starts with `-` exactly when the board is under budget.
   */
  function BoardVarianceText(rows: seq<WorkItem>): string {
    FormatSignedTime(Some(SumVariance(rows)))
  }

  lemma BoardVarianceSign(rows: seq<WorkItem>)
    ensures var t := BoardVarianceText(rows);
            |t| > 0 && (t[0] == '-' <==> BudgetStatus(SumVariance(rows)) == UnderBudget)
  {
    var v := SumVariance(rows);
    if v != 0 {
      SignedParts(v);
    }
  }

  /** The overall "Variance" metric: the magnitude of total actual minus total estimated. */
  function OverallVarianceText(rows: seq<WorkItem>): string {
    FormatTimeDetailed(Some(Abs(SumActual(rows) - SumEstimated(rows))))
  }

  /**
   * The overall metric never carries a minus sign (the direction goes to the delta), and it is the
   * corrected per-board text of the same rows with the sign taken off.
   */
  lemma OverallVarianceUnsigned(rows: seq<WorkItem>)
    ensures var t := OverallVarianceText(rows);
            && '0' <= t[0] <= '9'
            && (SumVariance(rows) < 0 ==> BoardVarianceText(rows) == "-" + t)
            && (SumVariance(rows) >= 0 ==> BoardVarianceText(rows) == t)
  {
    TotalVariance(rows);
    FormatTimeNonNegative(Abs(SumActual(rows) - SumEstimated(rows)));
  }

  // ---------------------------------------------------------------------------
  // Stale work items
  // ---------------------------------------------------------------------------

  /** Three days, the staleness threshold. */
  const StaleSeconds := 3 * SecondsPerDay

  /** `'done' in name.lower() or 'icebox' in name.lower()`. */
  predicate DoneOrIcebox(name: string) {
    Contains(Lower(name), "done") || Contains(Lower(name), "icebox")
  }

  /**
   * The `done_icebox_lanes` loop over the lane dictionary `names`, whose keys in iteration order
   * are `order`: every key once, and nothing else.
   */
  method DoneIceboxLanes(names: map<int, string>, order: seq<int>) returns (ids: seq<int>)
    requires forall i :: 0 <= i < |order| ==> order[i] in names
    requires forall k :: k in names ==> k in order
    requires Distinct(order)
    ensures IsSubseq(ids, order)
    ensures forall i :: 0 <= i < |order| ==> (order[i] in ids <==> DoneOrIcebox(names[order[i]]))
    ensures forall id :: id in ids ==> id in names && DoneOrIcebox(names[id])
    ensures forall k :: k in names ==> (k in ids <==> DoneOrIcebox(names[k]))
  {
    ids := [];
    for i := 0 to |order|
      invariant IsSubseq(ids, order[..i])
      invariant forall id :: id in ids ==> id in names && DoneOrIcebox(names[id])
      invariant forall j :: 0 <= j < i ==> (order[j] in ids <==> DoneOrIcebox(names[order[j]]))
    {
      assert order[..i + 1] == order[..i] + [order[i]];
      if DoneOrIcebox(names[order[i]]) {
        SubseqSnoc(ids, order[..i], order[i]);
        ids := ids + [order[i]];
      } else {
        SubseqExtend(ids, order[..i], order[i]);
      }
    }
    assert order[..|order|] == order;
    forall k | k in names ensures k in ids <==> DoneOrIcebox(names[k]) {
      var i :| 0 <= i < |order| && order[i] == k;
    }
  }

  /** `~lane_id.isin(done_icebox_lanes)`: an item with no lane stays active. */
  function ActiveItems(items: seq<WorkItem>, doneLanes: seq<int>): (r: seq<WorkItem>)
    ensures forall x :: multiset(r)[x] ==
              if !(x.laneId.Some? && x.laneId.value in doneLanes) then multiset(items)[x] else 0
  {
    var active := (x: WorkItem) => !(x.laneId.Some? && x.laneId.value in doneLanes);
    FilterCount(items, active);
    Filter(items, active)
  }

  /** The item numbers of the time entries added at or after `threshold`. */
  function RecentNumbers(entries: seq<TimeEntry>, threshold: int): set<string> {
    set e | e in entries && e.dateAdded.Some? && e.dateAdded.value >= threshold && e.itemNumber.Some? :: e.itemNumber.value
  }

  /**
   * The stale items: active items last updated more than three days before `now` (a null update
   * time never compares as earlier) whose number has no time entry added in those three days.
   */
  function StaleItems(items: seq<WorkItem>, doneLanes: seq<int>, entries: seq<TimeEntry>, now: int): (r: seq<WorkItem>)
    ensures var threshold := now - StaleSeconds;
            forall x :: multiset(r)[x] ==
              if x.dateUpdated.Some? && x.dateUpdated.value < threshold && x.number !in RecentNumbers(entries, threshold)
              then multiset(ActiveItems(items, doneLanes))[x] else 0
  {
    var threshold := now - StaleSeconds;
    var idle := (x: WorkItem) => x.dateUpdated.Some? && x.dateUpdated.value < threshold && x.number !in RecentNumbers(entries, threshold);
    FilterCount(ActiveItems(items, doneLanes), idle);
    Filter(ActiveItems(items, doneLanes), idle)
  }

  /** A time entry for `number` added at or after `threshold`. */
  predicate RecentEntry(e: TimeEntry, number: string, threshold: int) {
    e.itemNumber == Some(number) && e.dateAdded.Some? && e.dateAdded.value >= threshold
  }

  /**
   * An item is stale exactly when it is one of the items, is not in a done or icebox lane, was
   * last updated before the threshold, and has no recent time entry; the stale items keep the
   * items' order.
   */
  lemma StaleSpec(items: seq<WorkItem>, doneLanes: seq<int>, entries: seq<TimeEntry>, now: int)
    ensures var r := StaleItems(items, doneLanes, entries, now);
            var threshold := now - StaleSeconds;
            && IsSubseq(r, items)
            && (forall x :: x in r <==>
                 && x in items
                 && !(x.laneId.Some? && x.laneId.value in doneLanes)
                 && x.dateUpdated.Some? && x.dateUpdated.value < threshold
                 && forall e :: e in entries ==> !RecentEntry(e, x.number, threshold))
            && forall x :: multiset(r)[x] ==
                 if && !(x.laneId.Some? && x.laneId.value in doneLanes)
                    && x.dateUpdated.Some? && x.dateUpdated.value < threshold
                    && forall e :: e in entries ==> !RecentEntry(e, x.number, threshold)
                 then multiset(items)[x] else 0
  {
    var threshold := now - StaleSeconds;
    var active := ActiveItems(items, doneLanes);
    var r := StaleItems(items, doneLanes, entries, now);
    SubseqTransitive(r, active, items);
    forall x: WorkItem ensures x.number in RecentNumbers(entries, threshold) <==> exists e :: e in entries && RecentEntry(e, x.number, threshold) {
      if exists e :: e in entries && RecentEntry(e, x.number, threshold) {
        var e :| e in entries && RecentEntry(e, x.number, threshold);
        assert e.itemNumber.value == x.number;
      }
    }
  }

  /**
   * With the lane list `DoneIceboxLanes` returns, the stale rule in terms of lane names: an item is
   * stale exactly when it is one of the items, its lane is not a lane of `names` whose name
   * contains "done" or "icebox" (a null lane, or one missing from `names`, does not count as
   * such), it was last updated before the threshold, and it has no recent time entry.
   */
  lemma StaleByLaneName(items: seq<WorkItem>, names: map<int, string>, doneLanes: seq<int>,
                        entries: seq<TimeEntry>, now: int)
    requires forall id :: id in doneLanes ==> id in names && DoneOrIcebox(names[id])
    requires forall k :: k in names ==> (k in doneLanes <==> DoneOrIcebox(names[k]))
    ensures var r := StaleItems(items, doneLanes, entries, now);
            var threshold := now - StaleSeconds;
            forall x :: x in r <==>
              && x in items
              && !(x.laneId.Some? && x.laneId.value in names && DoneOrIcebox(names[x.laneId.value]))
              && x.dateUpdated.Some? && x.dateUpdated.value < threshold
              && forall e :: e in entries ==> !RecentEntry(e, x.number, threshold)
    ensures var r := StaleItems(items, doneLanes, entries, now);
            var threshold := now - StaleSeconds;
            forall x :: multiset(r)[x] ==
              if && !(x.laneId.Some? && x.laneId.value in names && DoneOrIcebox(names[x.laneId.value]))
                 && x.dateUpdated.Some? && x.dateUpdated.value < threshold
                 && forall e :: e in entries ==> !RecentEntry(e, x.number, threshold)
              then multiset(items)[x] else 0
  {
    StaleSpec(items, doneLanes, entries, now);
    forall x: WorkItem | x.laneId.Some?
      ensures x.laneId.value in doneLanes <==> x.laneId.value in names && DoneOrIcebox(names[x.laneId.value])
    {
      var k := x.laneId.value;
      if k in names {
        assert k in doneLanes <==> DoneOrIcebox(names[k]);
      }
    }
  }

  /** A stale item whose lane is a lane of `names` sits in a lane that is neither done nor icebox. */
  lemma StaleLaneNotDone(items: seq<WorkItem>, names: map<int, string>, doneLanes: seq<int>,
                         entries: seq<TimeEntry>, now: int, x: WorkItem)
    requires forall k :: k in names ==> (k in doneLanes <==> DoneOrIcebox(names[k]))
    requires x in StaleItems(items, doneLanes, entries, now)
    requires x.laneId.Some? && x.laneId.value in names
    ensures !DoneOrIcebox(names[x.laneId.value])
  {
    StaleSpec(items, doneLanes, entries, now);
    var k := x.laneId.value;
    assert k !in doneLanes;
    assert k in doneLanes <==> DoneOrIcebox(names[k]);
  }
}
