/** The "jump to item" re-scheduling route (`POST` on
    `/api/timeline-items/jump-to`): the clicked item starts now, everything
    before it is skipped, and everything after it keeps its original
    spacing from the clicked item. The database is a sequence of
    `timeline_items` rows; the clock is the parameter `now`, and each
    row write either succeeds or fails as the set `failed` of ids says. */
module JumpTo {
  import opened Wrappers
  import opened Seqs
  import opened Items

  /** One element of the route's `updates` list (its `updated_at` stamp is
      not modelled). */
  datatype Update = Update(id: string, start: int, end: Option<int>, status: ItemStatus)

  /** The gaps between consecutive start times, in list order; a negative
      gap (an item that starts before its predecessor) is kept as is. */
  function Intervals(items: seq<Item>): (gaps: seq<int>)
    ensures |gaps| == if |items| == 0 then 0 else |items| - 1
    ensures forall i :: 0 <= i < |gaps| ==> gaps[i] == items[i + 1].start - items[i].start
  {
    if |items| <= 1 then []
    else Intervals(items[..|items| - 1]) + [items[|items| - 1].start - items[|items| - 2].start]
  }

  /** Summing the gaps from the anchor up to item `i` telescopes to the
      difference of their original start times. */
  lemma {:induction false} Telescope(items: seq<Item>, anchor: nat, i: nat)
    requires anchor <= i < |items|
    ensures Sum(Intervals(items)[anchor..i]) == items[i].start - items[anchor].start
    decreases i - anchor
  {
    var gaps := Intervals(items);
    if i > anchor {
      Telescope(items, anchor, i - 1);
      SumSliceSnoc(gaps, anchor, i);
    }
  }

  /** Extending a slice by one element adds that element to its sum. */
  lemma SumSliceSnoc(s: seq<int>, a: nat, i: nat)
    requires a < i <= |s|
    ensures Sum(s[a..i]) == Sum(s[a..i - 1]) + s[i - 1]
  {
    var g := s[a..i];
    assert g[..|g| - 1] == s[a..i - 1];
  }

  /** A nullable end moved along with its start: the duration is kept and
      a missing end stays missing. */
  function ShiftEnd(end: Option<int>, oldStart: int, newStart: int): (r: Option<int>)
    ensures r.Some? <==> end.Some?
    ensures r.Some? ==> r.value - newStart == end.value - oldStart
  {
    match end
    case None => None
    case Some(e) => Some(newStart + (e - oldStart))
  }

  /** The update the route computes for item `i` when the clicked item is
      at position `anchor`: the three branches of its update loop. */
  function PlanItem(items: seq<Item>, anchor: nat, now: int, i: nat): (u: Update)
    requires anchor < |items| && i < |items|
    ensures u.id == items[i].id
    // items before the clicked one are skipped and keep their times
    ensures i < anchor ==> u.status == Skipped && u.start == items[i].start && u.end == items[i].end
    // the clicked item starts now; every later one is pending
    ensures i == anchor ==> u.status == InProgress && u.start == now
    ensures i > anchor ==> u.status == Pending
    // from the clicked item on, a missing end stays missing and a duration is kept
    ensures i >= anchor ==> (u.end.Some? <==> items[i].end.Some?)
    ensures i >= anchor && u.end.Some? ==> u.end.value - u.start == items[i].end.value - items[i].start
  {
    var item := items[i];
    if i < anchor then
      Update(item.id, item.start, item.end, Skipped)
    else if i == anchor then
      Update(item.id, now, ShiftEnd(item.end, item.start, now), InProgress)
    else
      var newStart := now + Sum(Intervals(items)[anchor..i]);
      Update(item.id, newStart, ShiftEnd(item.end, item.start, newStart), Pending)
  }

  /** The updates of the first `n` items, pushed in loop order. */
  function PlanPrefix(items: seq<Item>, anchor: nat, now: int, n: nat): (ups: seq<Update>)
    requires anchor < |items| && n <= |items|
    ensures |ups| == n
    ensures forall i :: 0 <= i < n ==> ups[i] == PlanItem(items, anchor, now, i)
  {
    if n == 0 then [] else PlanPrefix(items, anchor, now, n - 1) + [PlanItem(items, anchor, now, n - 1)]
  }

  /** Every gap summed from the anchor telescopes. */
  lemma TelescopeAll(items: seq<Item>, anchor: nat)
    requires anchor < |items|
    ensures forall i :: anchor <= i < |items| ==>
              Sum(Intervals(items)[anchor..i]) == items[i].start - items[anchor].start
  {
    forall i | anchor <= i < |items|
      ensures Sum(Intervals(items)[anchor..i]) == items[i].start - items[anchor].start
    {
      Telescope(items, anchor, i);
    }
  }

  /** The route's update list for the event's items in canonical order,
      with the clicked item at `anchor` and the single clock reading `now`. */
  function Schedule(items: seq<Item>, anchor: nat, now: int): (ups: seq<Update>)
    requires anchor < |items|
    // one update per item, in the same order
    ensures |ups| == |items|
    ensures forall i :: 0 <= i < |items| ==> ups[i].id == items[i].id
    // exactly one item is in progress: the clicked one
    ensures forall i :: 0 <= i < |items| ==> (ups[i].status == InProgress <==> i == anchor)
    // history is skipped with its times untouched
    ensures forall i :: 0 <= i < anchor ==>
              ups[i].status == Skipped && ups[i].start == items[i].start && ups[i].end == items[i].end
    // the rest is shifted rigidly so that the clicked item starts now
    ensures forall i :: anchor <= i < |items| ==>
              ups[i].start == now + (items[i].start - items[anchor].start)
    ensures forall i :: anchor < i < |items| ==> ups[i].status == Pending
    // durations are preserved, and an open-ended item stays open-ended
    ensures forall i :: 0 <= i < |items| ==>
              (ups[i].end.Some? <==> items[i].end.Some?) &&
              (ups[i].end.Some? ==> ups[i].end.value - ups[i].start == items[i].end.value - items[i].start)
  {
    TelescopeAll(items, anchor);
    PlanPrefix(items, anchor, now, |items|)
  }

  /** From the clicked item on, consecutive new starts are exactly the
      original gaps apart, and the new order of start times is the
      original one. */
  lemma SpacingPreserved(items: seq<Item>, anchor: nat, now: int, i: nat, j: nat)
    requires anchor <= i < |items| && anchor <= j < |items|
    ensures Schedule(items, anchor, now)[j].start - Schedule(items, anchor, now)[i].start
            == items[j].start - items[i].start
    ensures Schedule(items, anchor, now)[i].start <= Schedule(items, anchor, now)[j].start
            <==> items[i].start <= items[j].start
  {
    var ups := Schedule(items, anchor, now);
    assert ups[i].start == now + (items[i].start - items[anchor].start);
    assert ups[j].start == now + (items[j].start - items[anchor].start);
  }

  /** Running the route later by `delay` shifts every re-planned start by
      `delay` and changes nothing before the clicked item. */
  lemma ScheduleTranslates(items: seq<Item>, anchor: nat, now: int, delay: int, i: nat)
    requires anchor < |items| && i < |items|
    ensures i >= anchor ==>
              Schedule(items, anchor, now + delay)[i].start == Schedule(items, anchor, now)[i].start + delay
    ensures i < anchor ==> Schedule(items, anchor, now + delay)[i] == Schedule(items, anchor, now)[i]
  {
    var a, b := Schedule(items, anchor, now + delay), Schedule(items, anchor, now);
    if i < anchor {
      assert a[i].id == b[i].id;
    }
  }

  /** The row an update leaves behind: only the scheduling columns change. */
  function Apply(row: Item, u: Update): (r: Item)
    ensures r.id == row.id && r.eventId == row.eventId && r.title == row.title
    ensures r.category == row.category && r.orderIndex == row.orderIndex
    ensures r.start == u.start && r.end == u.end && r.status == u.status
  {
    row.(start := u.start, end := u.end, status := u.status)
  }

  /** The items as they read after every update of `ups` (in order) is applied. */
  function ApplyAll(items: seq<Item>, ups: seq<Update>): (r: seq<Item>)
    requires |ups| == |items|
    ensures |r| == |items|
    ensures forall i :: 0 <= i < |items| ==> r[i] == Apply(items[i], ups[i])
  {
    if |items| == 0 then []
    else ApplyAll(items[..|items| - 1], ups[..|ups| - 1]) + [Apply(items[|items| - 1], ups[|ups| - 1])]
  }

  /** The plan in closed form: items before the clicked one are skipped
      in place, and from the clicked one on every item is moved rigidly
      so that the clicked item starts now. */
  function RigidShift(items: seq<Item>, anchor: nat, now: int, i: nat): Update
    requires anchor < |items| && i < |items|
  {
    var item := items[i];
    if i < anchor then Update(item.id, item.start, item.end, Skipped)
    else
      var newStart := now + (item.start - items[anchor].start);
      Update(item.id, newStart, ShiftEnd(item.end, item.start, newStart), if i == anchor then InProgress else Pending)
  }

  /** The route's loop, which accumulates the gaps from the clicked item,
      computes exactly the rigid shift. */
  lemma ScheduleIsRigidShift(items: seq<Item>, anchor: nat, now: int, i: nat)
    requires anchor < |items| && i < |items|
    ensures Schedule(items, anchor, now)[i] == RigidShift(items, anchor, now, i)
  {
    var u := Schedule(items, anchor, now)[i];
    RigidFields(items, anchor, now, i, u);
  }

  /** An update with the rigid shift's id, status, start and duration is
      the rigid shift. */
  lemma RigidFields(items: seq<Item>, anchor: nat, now: int, i: nat, u: Update)
    requires anchor < |items| && i < |items|
    requires u.id == items[i].id
    requires u.status == if i < anchor then Skipped else if i == anchor then InProgress else Pending
    requires u.start == if i < anchor then items[i].start else now + (items[i].start - items[anchor].start)
    requires u.end.Some? <==> items[i].end.Some?
    requires u.end.Some? ==> u.end.value - u.start == items[i].end.value - items[i].start
    ensures u == RigidShift(items, anchor, now, i)
  {
  }

  /** Moving an end twice is moving it once. */
  lemma ShiftEndTwice(end: Option<int>, a: int, b: int, c: int)
    ensures ShiftEnd(ShiftEnd(end, a, b), b, c) == ShiftEnd(end, a, c)
  {
  }

  /** Jumping to the same item again after a fully committed jump plans
      exactly what the first jump would have planned at the second clock
      reading: the re-plan depends only on the original relative timing. */
  lemma {:induction false} ReplanAfterCommit(items: seq<Item>, anchor: nat, now: int, later: int)
    requires anchor < |items|
    ensures Schedule(ApplyAll(items, Schedule(items, anchor, now)), anchor, later)
            == Schedule(items, anchor, later)
  {
    var again := Schedule(ApplyAll(items, Schedule(items, anchor, now)), anchor, later);
    var direct := Schedule(items, anchor, later);
    forall i | 0 <= i < |items|
      ensures again[i] == direct[i]
    {
      ReplanAt(items, anchor, now, later, i);
    }
  }

  lemma ReplanAt(items: seq<Item>, anchor: nat, now: int, later: int, i: nat)
    requires anchor < |items| && i < |items|
    ensures Schedule(ApplyAll(items, Schedule(items, anchor, now)), anchor, later)[i]
            == Schedule(items, anchor, later)[i]
  {
    var ups := Schedule(items, anchor, now);
    var moved := ApplyAll(items, ups);
    ScheduleIsRigidShift(items, anchor, now, i);
    ScheduleIsRigidShift(items, anchor, now, anchor);
    ScheduleIsRigidShift(moved, anchor, later, i);
    ScheduleIsRigidShift(items, anchor, later, i);
    RigidReplan(items, moved, anchor, now, later, i);
  }

  /** The rigid shift of rows that were themselves rigidly shifted is the
      rigid shift of the original rows. */
  lemma RigidReplan(items: seq<Item>, moved: seq<Item>, anchor: nat, now: int, later: int, i: nat)
    requires anchor < |items| && i < |items| && |moved| == |items|
    requires moved[i] == Apply(items[i], RigidShift(items, anchor, now, i))
    requires moved[anchor] == Apply(items[anchor], RigidShift(items, anchor, now, anchor))
    ensures RigidShift(moved, anchor, later, i) == RigidShift(items, anchor, later, i)
  {
    if i >= anchor {
      var first := now + (items[i].start - items[anchor].start);
      var second := later + (items[i].start - items[anchor].start);
      ShiftEndTwice(items[i].end, items[i].start, first, second);
    }
  }

  /** The rows after one write: every row whose id is `u.id` takes its
      values (the `.eq('id', …)` filter of the update). */
  function WriteRow(store: seq<Item>, u: Update): (r: seq<Item>)
    ensures |r| == |store|
    ensures forall k :: 0 <= k < |store| ==>
              r[k] == if store[k].id == u.id then Apply(store[k], u) else store[k]
  {
    if |store| == 0 then []
    else
      var last := store[|store| - 1];
      WriteRow(store[..|store| - 1], u) + [if last.id == u.id then Apply(last, u) else last]
  }

  /** The rows after every write of `ups` has been attempted; the writes
      whose id is in `failed` change nothing, and the others are not
      undone when one fails. */
  function CommitStore(store: seq<Item>, ups: seq<Update>, failed: set<string>): (r: seq<Item>)
    ensures |r| == |store|
    // a row that no successful write addresses is left as it was
    ensures forall k :: 0 <= k < |store| && (store[k].id in failed || forall j :: 0 <= j < |ups| ==> ups[j].id != store[k].id)
              ==> r[k] == store[k]
  {
    if |ups| == 0 then store
    else
      var before := CommitStore(store, ups[..|ups| - 1], failed);
      var u := ups[|ups| - 1];
      if u.id in failed then before else WriteRow(before, u)
  }

  /** The last successful write addressed to `id`, if any. */
  function LastWriteFor(ups: seq<Update>, failed: set<string>, id: string): (r: Option<Update>)
    ensures r.Some? ==> r.value.id == id && id !in failed
    ensures r.None? <==> id in failed || forall j :: 0 <= j < |ups| ==> ups[j].id != id
  {
    if |ups| == 0 then None
    else if ups[|ups| - 1].id == id && id !in failed then Some(ups[|ups| - 1])
    else
      var r := LastWriteFor(ups[..|ups| - 1], failed, id);
      assert forall j :: 0 <= j < |ups| - 1 ==> ups[..|ups| - 1][j] == ups[j];
      r
  }

  /** Row by row, the committed table holds the last successful write to
      that row, or the row as it was if no write to it succeeded. */
  lemma {:induction false} CommitRow(store: seq<Item>, ups: seq<Update>, failed: set<string>, k: nat)
    requires k < |store|
    ensures CommitStore(store, ups, failed)[k] == match LastWriteFor(ups, failed, store[k].id)
                                                  case None => store[k]
                                                  case Some(u) => Apply(store[k], u)
  {
    if |ups| > 0 {
      CommitRow(store, ups[..|ups| - 1], failed, k);
    }
  }

  /** For the update list of an event whose ids are distinct, the write
      that lands on item `i`'s row is item `i`'s own update, unless it
      failed. */
  lemma ScheduleLastWrite(items: seq<Item>, anchor: nat, now: int, failed: set<string>, i: nat)
    requires anchor < |items| && i < |items| && UniqueIds(items)
    ensures LastWriteFor(Schedule(items, anchor, now), failed, items[i].id)
            == if items[i].id in failed then None else Some(Schedule(items, anchor, now)[i])
  {
    var ups := Schedule(items, anchor, now);
    LastWriteSingle(ups, failed, i);
  }

  lemma {:induction false} LastWriteSingle(ups: seq<Update>, failed: set<string>, i: nat)
    requires i < |ups|
    requires forall j :: 0 <= j < |ups| && j != i ==> ups[j].id != ups[i].id
    ensures LastWriteFor(ups, failed, ups[i].id) == if ups[i].id in failed then None else Some(ups[i])
  {
    if i < |ups| - 1 {
      LastWriteSingle(ups[..|ups| - 1], failed, i);
    }
  }

  /** The write results that carry an error (`results.filter(r => r.error)`). */
  function FailedWrites(ups: seq<Update>, failed: set<string>): (errs: seq<Update>)
    ensures |errs| == 0 <==> forall i :: 0 <= i < |ups| ==> ups[i].id !in failed
  {
    if |ups| == 0 then []
    else
      var errs := FailedWrites(ups[..|ups| - 1], failed);
      assert forall i :: 0 <= i < |ups| - 1 ==> ups[..|ups| - 1][i] == ups[i];
      errs + (if ups[|ups| - 1].id in failed then [ups[|ups| - 1]] else [])
  }

  /** The route's reply. */
  datatype Response =
    | MissingItemId            // 400 'Item ID is required'
    | ItemNotFound             // 404 'Timeline item not found'
    | ItemNotInEvent           // 404 'Timeline item not found in event'
    | UpdateFailed             // 500 'Failed to update some timeline items'
    | Updated(updates: seq<Update>)

  function StatusCode(r: Response): (code: int)
    ensures code == 200 <==> r.Updated?
    ensures code == 400 <==> r.MissingItemId?
    ensures code == 404 <==> r.ItemNotFound? || r.ItemNotInEvent?
    ensures code == 500 <==> r.UpdateFailed?
  {
    match r
    case MissingItemId => 400
    case ItemNotFound => 404
    case ItemNotInEvent => 404
    case UpdateFailed => 500
    case Updated(_) => 200
  }

  /** The rows whose id is `id`. */
  function RowsWithId(store: seq<Item>, id: string): (rows: seq<Item>)
    ensures forall k :: 0 <= k < |rows| ==> rows[k].id == id
  {
    Filter(store, (row: Item) => row.id == id)
  }

  /** `.eq('id', itemId).single()`: the row, when exactly one has that id. */
  function Lookup(store: seq<Item>, id: string): (r: Option<Item>)
    ensures r.Some? <==> |RowsWithId(store, id)| == 1
    ensures r.Some? ==> r.value.id == id && r.value in store
  {
    var rows := RowsWithId(store, id);
    if |rows| == 1 then
      assert rows[0] in multiset(rows);
      Some(rows[0])
    else None
  }

  /** `.eq('event_id', e).order('order_index')`: the event's rows in
      ascending `order_index`, ties in table order. */
  function EventItems(store: seq<Item>, eventId: string): (items: seq<Item>)
    ensures forall k :: 0 <= k < |items| ==> items[k].eventId == eventId
    ensures SortedBy(items, OrderIndexOf)
  {
    var rows := Filter(store, InEvent(eventId));
    var items := SortBy(rows, OrderIndexOf);
    assert forall k :: 0 <= k < |items| ==> items[k] in multiset(rows);
    items
  }

  function InEvent(eventId: string): Item -> bool
  {
    (row: Item) => row.eventId == eventId
  }

  /** Ids unique in the table stay unique in an event's list, so the
      commit lemmas that ask for unique ids apply to the route. */
  lemma EventItemsUnique(store: seq<Item>, e: string)
    requires UniqueIds(store)
    ensures UniqueIds(EventItems(store, e))
  {
    var rows := Filter(store, InEvent(e));
    assert EventItems(store, e) == SortBy(rows, OrderIndexOf);
    UniqueIdsSub(EventItems(store, e), store);
  }

  /** A row is among an event's rows exactly when it is in the table and
      belongs to that event. */
  lemma EventItemsMembers(store: seq<Item>, e: string, x: Item)
    ensures x in EventItems(store, e) <==> x in store && x.eventId == e
  {
    var rows := Filter(store, InEvent(e));
    assert x in EventItems(store, e) <==> x in rows by {
      assert x in multiset(SortBy(rows, OrderIndexOf)) <==> x in multiset(rows);
    }
    if x in store && x.eventId == e {
      var k :| 0 <= k < |store| && store[k] == x;
      FilterKeeps(store, InEvent(e), k);
    }
    if x in rows {
      assert x in multiset(store);
    }
  }

  /** `findIndex(item => item.id === id)`. */
  function IndexOfId(items: seq<Item>, id: string): (r: Option<nat>)
    ensures r.None? <==> forall k :: 0 <= k < |items| ==> items[k].id != id
    ensures r.Some? ==> r.value < |items| && items[r.value].id == id &&
                        forall k :: 0 <= k < r.value ==> items[k].id != id
  {
    if |items| == 0 then None
    else if items[0].id == id then Some(0)
    else
      var r := IndexOfId(items[1..], id);
      assert forall k :: 1 <= k < |items| ==> items[1..][k - 1] == items[k];
      match r
      case None => None
      case Some(p) => Some(p + 1)
  }

  /** The clicked row is always among its own event's rows. */
  lemma AnchorInEvent(store: seq<Item>, id: string)
    requires Lookup(store, id).Some?
    ensures IndexOfId(EventItems(store, Lookup(store, id).value.eventId), id).Some?
  {
    var clicked := Lookup(store, id).value;
    var items := EventItems(store, clicked.eventId);
    EventItemsMembers(store, clicked.eventId, clicked);
    var j :| 0 <= j < |items| && items[j] == clicked;
  }

  /** The route's pure part: input check, look-ups, re-plan and commit.
      `itemId` is the request body's field (None when absent); the body's
      JSON parsing and the list read's own 500 are not modelled. */
  function Handle(itemId: Option<string>, store: seq<Item>, now: int, failed: set<string>)
    : (r: (Response, seq<Item>))
    // a missing or empty id is refused before any read or write
    ensures (itemId.None? || itemId.value == "") ==> r.0 == MissingItemId && r.1 == store
    // an id that names no single row is not found, and nothing is written
    ensures itemId.Some? && itemId.value != "" && Lookup(store, itemId.value).None? ==>
              r.0 == ItemNotFound && r.1 == store
    // the clicked item is always found in its event
    ensures r.0 != ItemNotInEvent
    // writes touch only the scheduling columns
    ensures SameRows(store, r.1)
    // on success, exactly one update is in progress, and it is the clicked item's
    ensures r.0.Updated? ==> ClickedOnlyInProgress(r.0.updates, itemId.value)
  {
    if itemId.None? || itemId.value == "" then (MissingItemId, store)
    else
      var id := itemId.value;
      match Lookup(store, id)
      case None => (ItemNotFound, store)
      case Some(clicked) =>
        var items := EventItems(store, clicked.eventId);
        AnchorInEvent(store, id);
        match IndexOfId(items, id)
        case None => (ItemNotInEvent, store)
        case Some(anchor) => ReplanAndCommit(store, items, anchor, now, failed)
  }

  /** The route once the clicked item sits at `anchor` of its event's
      `items`: compute the updates, attempt every write, and report. */
  function ReplanAndCommit(store: seq<Item>, items: seq<Item>, anchor: nat, now: int, failed: set<string>)
    : (r: (Response, seq<Item>))
    requires anchor < |items|
    // the table left behind is every write attempted, none rolled back
    ensures r.1 == CommitStore(store, Schedule(items, anchor, now), failed)
    ensures SameRows(store, r.1)
    ensures r.0 == UpdateFailed <==> |FailedWrites(Schedule(items, anchor, now), failed)| > 0
    ensures r.0 != UpdateFailed ==> r.0 == Updated(Schedule(items, anchor, now))
    ensures r.0.Updated? ==> ClickedOnlyInProgress(r.0.updates, items[anchor].id)
  {
    var ups := Schedule(items, anchor, now);
    ScheduleMarksClicked(items, anchor, now, items[anchor].id);
    var written := CommitStore(store, ups, failed);
    CommitKeepsRows(store, ups, failed);
    if |FailedWrites(ups, failed)| > 0 then (UpdateFailed, written)
    else (Updated(ups), written)
  }

  /** Some update is in progress, every such update is for `id`, and
      there is only one. */
  predicate ClickedOnlyInProgress(ups: seq<Update>, id: string)
  {
    && (exists i :: 0 <= i < |ups| && ups[i].status == InProgress)
    && forall i, j :: 0 <= i < |ups| && 0 <= j < |ups| && ups[i].status == InProgress && ups[j].status == InProgress ==>
         ups[i].id == id && i == j
  }

  lemma ScheduleMarksClicked(items: seq<Item>, anchor: nat, now: int, id: string)
    requires anchor < |items| && items[anchor].id == id
    ensures ClickedOnlyInProgress(Schedule(items, anchor, now), id)
  {
    var ups := Schedule(items, anchor, now);
    assert ups[anchor].status == InProgress;
  }

  /** `after` holds the rows of `before`, in place, with at most their
      scheduling columns (start, end, status) changed. */
  predicate SameRows(before: seq<Item>, after: seq<Item>)
  {
    && |after| == |before|
    && forall k :: 0 <= k < |before| ==>
         after[k].id == before[k].id && after[k].eventId == before[k].eventId &&
         after[k].title == before[k].title && after[k].category == before[k].category &&
         after[k].orderIndex == before[k].orderIndex
  }

  /** Committing never changes a row's identity or its non-scheduling columns. */
  lemma CommitKeepsRows(store: seq<Item>, ups: seq<Update>, failed: set<string>)
    ensures SameRows(store, CommitStore(store, ups, failed))
  {
    forall k | 0 <= k < |store|
      ensures var r := CommitStore(store, ups, failed);
              r[k].id == store[k].id && r[k].eventId == store[k].eventId &&
              r[k].title == store[k].title && r[k].category == store[k].category &&
              r[k].orderIndex == store[k].orderIndex
    {
      CommitRow(store, ups, failed, k);
    }
  }

  /** A write lands on its row whatever happens to the other writes: the
      commit of a re-plan leaves each row of the event with its own
      update, unless that row's write failed, and is never rolled back. */
  lemma CommitLandsUpdate(store: seq<Item>, items: seq<Item>, anchor: nat, now: int,
                          failed: set<string>, k: nat, i: nat)
    requires anchor < |items| && i < |items| && k < |store| && UniqueIds(items)
    requires store[k].id == items[i].id
    ensures CommitStore(store, Schedule(items, anchor, now), failed)[k]
            == if items[i].id in failed then store[k] else Apply(store[k], Schedule(items, anchor, now)[i])
  {
    CommitRow(store, Schedule(items, anchor, now), failed, k);
    ScheduleLastWrite(items, anchor, now, failed, i);
  }

  /** Some write of one update per row of an event (such as the event's
      re-plan) fails exactly when some row of that event is in the failing
      set. */
  lemma EventWriteFails(store: seq<Item>, e: string, ups: seq<Update>, failed: set<string>)
    requires |ups| == |EventItems(store, e)|
    requires forall i :: 0 <= i < |ups| ==> ups[i].id == EventItems(store, e)[i].id
    ensures |FailedWrites(ups, failed)| > 0
            <==> exists k :: 0 <= k < |store| && store[k].eventId == e && store[k].id in failed
  {
    var items := EventItems(store, e);
    FailsIffIdFailed(items, ups, failed);
    if exists k :: 0 <= k < |store| && store[k].eventId == e && store[k].id in failed {
      var k :| 0 <= k < |store| && store[k].eventId == e && store[k].id in failed;
      EventItemsMembers(store, e, store[k]);
      var i :| 0 <= i < |items| && items[i] == store[k];
      assert items[i].id in failed;
    }
    if exists i :: 0 <= i < |items| && items[i].id in failed {
      var i :| 0 <= i < |items| && items[i].id in failed;
      EventItemsMembers(store, e, items[i]);
      var k :| 0 <= k < |store| && store[k] == items[i];
    }
  }

  /** Writes addressed to the rows of `items` fail exactly when one of
      those rows is in the failing set. */
  lemma FailsIffIdFailed(items: seq<Item>, ups: seq<Update>, failed: set<string>)
    requires |ups| == |items| && forall i :: 0 <= i < |items| ==> ups[i].id == items[i].id
    ensures |FailedWrites(ups, failed)| > 0 <==> exists i :: 0 <= i < |items| && items[i].id in failed
  {
    if exists i :: 0 <= i < |items| && items[i].id in failed {
      var i :| 0 <= i < |items| && items[i].id in failed;
      assert ups[i].id in failed;
    }
  }

  /** For a clicked item that exists, the route reports a write failure
      exactly when some row of the clicked item's event could not be
      written, and success otherwise. */
  lemma HandleFailsIff(itemId: string, store: seq<Item>, now: int, failed: set<string>)
    requires itemId != "" && Lookup(store, itemId).Some?
    ensures var e := Lookup(store, itemId).value.eventId;
            var r := Handle(Some(itemId), store, now, failed).0;
            (r == UpdateFailed <==> exists k :: 0 <= k < |store| && store[k].eventId == e && store[k].id in failed)
            && (r.Updated? <==> r != UpdateFailed)
  {
    var e := Lookup(store, itemId).value.eventId;
    var items := EventItems(store, e);
    HandleReplans(itemId, store, now, failed);
    var anchor := IndexOfId(items, itemId).value;
    EventWriteFails(store, e, Schedule(items, anchor, now), failed);
  }

  /** For a clicked item that exists, the route's reply is that of the
      re-plan of its event. */
  lemma HandleReplans(itemId: string, store: seq<Item>, now: int, failed: set<string>)
    requires itemId != "" && Lookup(store, itemId).Some?
    ensures var items := EventItems(store, Lookup(store, itemId).value.eventId);
            && IndexOfId(items, itemId).Some?
            && Handle(Some(itemId), store, now, failed)
               == ReplanAndCommit(store, items, IndexOfId(items, itemId).value, now, failed)
  {
    AnchorInEvent(store, itemId);
  }
}
