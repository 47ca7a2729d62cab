/** The live view of a running event: which item is current, which are
    still to come and which are done, the "Mark Complete" / "Skip" step,
    and the event controls offered in each event status. The clock is
    the parameter `now` (milliseconds); each status write the view sends
    either succeeds or not, as a boolean parameter says. */
module LiveTimeline {
  import opened Wrappers
  import opened Seqs
  import opened Items
  import Events

  /** The duration assumed for an item without an end time: 30 minutes. */
  const DefaultDuration: int := 30 * 60 * 1000

  /** The end the view uses: the item's end time, or its start plus the
      default duration. */
  function EffectiveEnd(item: Item): (e: int)
    ensures item.end.Some? ==> e == item.end.value
    ensures item.end.None? ==> e - item.start == DefaultDuration
  {
    match item.end
    case Some(end) => end
    case None => item.start + DefaultDuration
  }

  /** The items in ascending `order_index`; equal indices keep their
      order (a stable sort). */
  function SortedItems(items: seq<Item>): (sorted: seq<Item>)
    ensures SortedBy(sorted, OrderIndexOf)
    ensures multiset(sorted) == multiset(items)
    ensures forall k :: KeyRun(sorted, OrderIndexOf, k) == KeyRun(items, OrderIndexOf, k)
  {
    var sorted := SortBy(items, OrderIndexOf);
    forall k
      ensures KeyRun(sorted, OrderIndexOf, k) == KeyRun(items, OrderIndexOf, k)
    {
      SortByStable(items, OrderIndexOf, k);
    }
    sorted
  }

  /** The three groups the view shows. */
  datatype Buckets = Buckets(current: Option<Item>, upcoming: seq<Item>, completed: seq<Item>)

  /** A pending item whose window `[start, effective end]` contains `now`. */
  predicate InWindow(item: Item, now: int)
  {
    item.status == Pending && item.start <= now <= EffectiveEnd(item)
  }

  /** One iteration of the classifying `forEach`, in the order its
      branches are tried. */
  function Step(b: Buckets, item: Item, now: int): (r: Buckets)
    // the item joins at most one group, at the end of that group
    ensures || r == b || r == b.(current := Some(item))
            || r == b.(upcoming := b.upcoming + [item]) || r == b.(completed := b.completed + [item])
    // a chosen current item is displaced only by one in progress
    ensures r.current != b.current ==> item.status == InProgress || b.current.None?
  {
    if item.status == InProgress then
      b.(current := Some(item))
    else if item.status == Completed || item.status == Skipped then
      b.(completed := b.completed + [item])
    else if InWindow(item, now) && b.current.None? then
      b.(current := Some(item))
    else if item.status == Pending && now < item.start then
      b.(upcoming := b.upcoming + [item])
    else if item.status == Pending && now > EffectiveEnd(item) then
      b.(completed := b.completed + [item])
    else
      b
  }

  /** The classifier run over the sorted items. */
  function Classify(sorted: seq<Item>, now: int): (r: Buckets)
    // the groups hold at most as many entries as there are items
    ensures |r.upcoming| + |r.completed| + (if r.current.Some? then 1 else 0) <= |sorted|
  {
    if |sorted| == 0 then Buckets(None, [], [])
    else Step(Classify(sorted[..|sorted| - 1], now), sorted[|sorted| - 1], now)
  }

  /** The view's buckets for the items as loaded. */
  function Classified(items: seq<Item>, now: int): Buckets
  {
    Classify(SortedItems(items), now)
  }

  // An independent, declarative description of each bucket.

  function IsInProgress(item: Item): bool
  {
    item.status == InProgress
  }

  function InWindowAt(now: int): Item -> bool
  {
    (item: Item) => InWindow(item, now)
  }

  /** Pending and not yet started. */
  function UpcomingAt(now: int): Item -> bool
  {
    (item: Item) => item.status == Pending && now < item.start
  }

  /** Closed, or pending, started and past its effective end. */
  function DoneAt(now: int): Item -> bool
  {
    (item: Item) => item.status == Completed || item.status == Skipped ||
            (item.status == Pending && item.start <= now && EffectiveEnd(item) < now)
  }

  /** The last item in progress; failing that, the first pending item
      whose window contains `now`. */
  function CurrentOf(sorted: seq<Item>, now: int): Option<Item>
  {
    match LastWhere(sorted, IsInProgress)
    case Some(item) => Some(item)
    case None => FirstWhere(sorted, InWindowAt(now))
  }

  lemma StepEffect(b: Buckets, x: Item, now: int)
    ensures Step(b, x, now).current ==
              if IsInProgress(x) then Some(x)
              else if InWindowAt(now)(x) && b.current.None? then Some(x)
              else b.current
    ensures Step(b, x, now).upcoming == b.upcoming + if UpcomingAt(now)(x) then [x] else []
    ensures Step(b, x, now).completed == b.completed + if DoneAt(now)(x) then [x] else []
  {
  }

  /** The current item of the classifier is the declarative one. */
  lemma {:induction false} ClassifyCurrent(sorted: seq<Item>, now: int)
    ensures Classify(sorted, now).current == CurrentOf(sorted, now)
  {
    if |sorted| > 0 {
      var s' := sorted[..|sorted| - 1];
      var x := sorted[|sorted| - 1];
      ClassifyCurrent(s', now);
      StepEffect(Classify(s', now), x, now);
    }
  }

  /** The upcoming bucket is the pending items that have not started. */
  lemma {:induction false} ClassifyUpcoming(sorted: seq<Item>, now: int)
    ensures Classify(sorted, now).upcoming == Filter(sorted, UpcomingAt(now))
  {
    if |sorted| > 0 {
      ClassifyUpcoming(sorted[..|sorted| - 1], now);
      StepEffect(Classify(sorted[..|sorted| - 1], now), sorted[|sorted| - 1], now);
    }
  }

  /** The completed bucket is the closed items and the started pending
      items past their effective end. */
  lemma {:induction false} ClassifyCompleted(sorted: seq<Item>, now: int)
    ensures Classify(sorted, now).completed == Filter(sorted, DoneAt(now))
  {
    if |sorted| > 0 {
      ClassifyCompleted(sorted[..|sorted| - 1], now);
      StepEffect(Classify(sorted[..|sorted| - 1], now), sorted[|sorted| - 1], now);
    }
  }

  /** The classifier agrees with the declarative description: the
      current item, then the upcoming and completed buckets as filters
      that keep the sorted order. */
  lemma ClassifyMeaning(sorted: seq<Item>, now: int)
    ensures Classify(sorted, now) ==
            Buckets(CurrentOf(sorted, now), Filter(sorted, UpcomingAt(now)), Filter(sorted, DoneAt(now)))
  {
    ClassifyCurrent(sorted, now);
    ClassifyUpcoming(sorted, now);
    ClassifyCompleted(sorted, now);
  }

  /** Closed items (completed or skipped) always end up in the completed
      bucket, and no item in progress ever does. */
  lemma ClosedItemsAreDone(items: seq<Item>, now: int, k: nat)
    requires k < |items|
    ensures items[k].status == Completed || items[k].status == Skipped ==>
              items[k] in Classified(items, now).completed
    ensures items[k].status == InProgress ==>
              items[k] !in Classified(items, now).completed && items[k] !in Classified(items, now).upcoming
  {
    var sorted := SortedItems(items);
    ClassifyMeaning(sorted, now);
    assert items[k] in multiset(sorted);
    FilterMembers(sorted, DoneAt(now), items[k]);
    FilterMembers(sorted, UpcomingAt(now), items[k]);
    StatusBuckets(items[k], now);
  }

  /** The bucket tests on the status alone: a closed item is done, and
      an item in progress is neither done nor upcoming. */
  lemma StatusBuckets(item: Item, now: int)
    ensures item.status == Completed || item.status == Skipped ==> DoneAt(now)(item)
    ensures item.status == InProgress ==> !DoneAt(now)(item) && !UpcomingAt(now)(item)
  {
  }

  /** A pending item that has not started is upcoming; one that has
      started and whose window is over is completed. */
  lemma PendingItemsByTime(items: seq<Item>, now: int, k: nat)
    requires k < |items| && items[k].status == Pending
    ensures now < items[k].start ==> items[k] in Classified(items, now).upcoming
    ensures items[k].start <= now && EffectiveEnd(items[k]) < now ==>
              items[k] in Classified(items, now).completed
  {
    var sorted := SortedItems(items);
    ClassifyMeaning(sorted, now);
    assert items[k] in multiset(sorted);
    FilterMembers(sorted, UpcomingAt(now), items[k]);
    FilterMembers(sorted, DoneAt(now), items[k]);
    PendingBuckets(items[k], now);
  }

  /** The bucket tests on a pending item: not yet started is upcoming,
      started and past its effective end is done. */
  lemma PendingBuckets(item: Item, now: int)
    requires item.status == Pending
    ensures now < item.start ==> UpcomingAt(now)(item)
    ensures item.start <= now && EffectiveEnd(item) < now ==> DoneAt(now)(item)
  {
  }

  /** The upcoming and completed buckets are in `order_index` order. */
  lemma BucketsSorted(items: seq<Item>, now: int)
    ensures SortedBy(Classified(items, now).upcoming, OrderIndexOf)
    ensures SortedBy(Classified(items, now).completed, OrderIndexOf)
  {
    var sorted := SortedItems(items);
    ClassifyMeaning(sorted, now);
    FilterSorted(sorted, UpcomingAt(now), OrderIndexOf);
    FilterSorted(sorted, DoneAt(now), OrderIndexOf);
  }

  /** What the current item can be: an item of the list that is in
      progress or pending inside its window; and if any item is in
      progress, the current item is. */
  lemma CurrentFacts(items: seq<Item>, now: int)
    ensures var c := Classified(items, now).current;
            c.Some? ==> c.value in items && (c.value.status == InProgress || InWindow(c.value, now))
    ensures (exists k :: 0 <= k < |items| && items[k].status == InProgress) ==>
              var c := Classified(items, now).current;
              c.Some? && c.value.status == InProgress
  {
    var sorted := SortedItems(items);
    ClassifyCurrent(sorted, now);
    var c := Classified(items, now).current;
    if c.Some? {
      assert c.value in sorted;
      assert c.value in multiset(items);
    }
    if exists k :: 0 <= k < |items| && items[k].status == InProgress {
      var k :| 0 <= k < |items| && items[k].status == InProgress;
      assert items[k] in multiset(sorted);
      var q :| 0 <= q < |sorted| && sorted[q] == items[k];
      assert IsInProgress(sorted[q]);
    }
  }

  /** Every upcoming item is an item of the list, pending and not started. */
  lemma UpcomingFacts(items: seq<Item>, now: int)
    ensures var up := Classified(items, now).upcoming;
            forall k :: 0 <= k < |up| ==> up[k] in items && up[k].status == Pending && now < up[k].start
  {
    var sorted := SortedItems(items);
    ClassifyUpcoming(sorted, now);
    var up := Classified(items, now).upcoming;
    forall k | 0 <= k < |up|
      ensures up[k] in items && up[k].status == Pending && now < up[k].start
    {
      assert UpcomingAt(now)(up[k]);
      assert up[k] in multiset(sorted);
    }
  }

  /** Every completed item is an item of the list that is closed, or
      pending, started and past its effective end. */
  lemma CompletedFacts(items: seq<Item>, now: int)
    ensures var done := Classified(items, now).completed;
            forall k :: 0 <= k < |done| ==>
              (done[k] in items &&
               (done[k].status == Completed || done[k].status == Skipped ||
                (done[k].status == Pending && done[k].start <= now && EffectiveEnd(done[k]) < now)))
  {
    var sorted := SortedItems(items);
    ClassifyCompleted(sorted, now);
    var done := Classified(items, now).completed;
    forall k | 0 <= k < |done|
      ensures done[k] in items
      ensures done[k].status == Completed || done[k].status == Skipped ||
              (done[k].status == Pending && done[k].start <= now && EffectiveEnd(done[k]) < now)
    {
      assert DoneAt(now)(done[k]);
      assert done[k] in multiset(sorted);
    }
  }

  /** The buckets are not a partition: a pending item inside its window
      is shown nowhere when an item in progress exists. */
  lemma HiddenBehindInProgress(items: seq<Item>, now: int, i: nat, j: nat)
    requires i < |items| && j < |items|
    requires InWindow(items[i], now) && items[j].status == InProgress
    ensures Classified(items, now).current != Some(items[i])
    ensures items[i] !in Classified(items, now).upcoming
    ensures items[i] !in Classified(items, now).completed
  {
    CurrentFacts(items, now);
    UpcomingFacts(items, now);
    CompletedFacts(items, now);
  }

  /** Two pending items inside their windows are in neither list, and at
      most one of them is current; which one is `ClassifyCurrent`'s
      business (the first in order). With no item in progress, some item
      inside its window is current. */
  lemma HiddenBehindEarlierWindow(items: seq<Item>, now: int, i: nat, j: nat)
    requires UniqueIds(items)
    requires i < |items| && j < |items| && i != j
    requires InWindow(items[i], now) && InWindow(items[j], now)
    ensures Classified(items, now).current != Some(items[i]) || Classified(items, now).current != Some(items[j])
    // with nothing in progress, an item inside its window is current
    ensures (forall k :: 0 <= k < |items| ==> items[k].status != InProgress) ==>
              Classified(items, now).current.Some? && InWindow(Classified(items, now).current.value, now)
    ensures items[i] !in Classified(items, now).upcoming && items[i] !in Classified(items, now).completed
    ensures items[j] !in Classified(items, now).upcoming && items[j] !in Classified(items, now).completed
  {
    UpcomingFacts(items, now);
    CompletedFacts(items, now);
    if forall k :: 0 <= k < |items| ==> items[k].status != InProgress {
      WindowGivesCurrent(items, now, i);
    }
    assert items[i] != items[j];
  }

  /** With nothing in progress, an item inside its window guarantees that
      some item inside its window is current. */
  lemma WindowGivesCurrent(items: seq<Item>, now: int, i: nat)
    requires i < |items| && InWindow(items[i], now)
    requires forall k :: 0 <= k < |items| ==> items[k].status != InProgress
    ensures Classified(items, now).current.Some? && InWindow(Classified(items, now).current.value, now)
  {
    var sorted := SortedItems(items);
    ClassifyCurrent(sorted, now);
    CurrentFacts(items, now);
    assert items[i] in multiset(sorted);
    var q :| 0 <= q < |sorted| && sorted[q] == items[i];
    assert InWindowAt(now)(sorted[q]);
  }

  /** The two buttons on the current item. */
  datatype Action = Skip | Complete

  function ClosingStatus(a: Action): ItemStatus
  {
    match a
    case Skip => Skipped
    case Complete => Completed
  }

  /** `after` is `before` with at most the status of some rows changed. */
  predicate StatusOnlyChange(before: seq<Item>, after: seq<Item>)
  {
    && |after| == |before|
    && forall k :: 0 <= k < |before| ==> after[k] == before[k].(status := after[k].status)
  }

  lemma StatusOnlyChangeTrans(a: seq<Item>, b: seq<Item>, c: seq<Item>)
    requires StatusOnlyChange(a, b) && StatusOnlyChange(b, c)
    ensures StatusOnlyChange(a, c)
  {
    forall k | 0 <= k < |a|
      ensures c[k] == a[k].(status := c[k].status)
    {
      assert b[k] == a[k].(status := b[k].status);
    }
  }

  /** The rows after a status write to item `id`. */
  function SetStatus(items: seq<Item>, id: string, status: ItemStatus): (r: seq<Item>)
    ensures |r| == |items|
    ensures forall k :: 0 <= k < |items| ==>
              r[k] == if items[k].id == id then items[k].(status := status) else items[k]
    ensures StatusOnlyChange(items, r)
  {
    if |items| == 0 then []
    else
      var last := items[|items| - 1];
      SetStatus(items[..|items| - 1], id, status) + [if last.id == id then last.(status := status) else last]
  }

  /** `handleSkipItem` / `handleCompleteItem`: close the current item, and
      only if that write succeeded (`closeOk`) promote the first upcoming
      item; the promotion's own result is not checked by the view, so
      `promoteOk` only says whether it took effect. */
  function Advance(items: seq<Item>, now: int, action: Action, closeOk: bool, promoteOk: bool): (r: seq<Item>)
    // nothing happens without a current item or when closing it fails
    ensures Classified(items, now).current.None? || !closeOk ==> r == items
    // only statuses change
    ensures StatusOnlyChange(items, r)
  {
    var b := Classified(items, now);
    match b.current
    case None => items
    case Some(cur) =>
      if !closeOk then items
      else
        var closed := SetStatus(items, cur.id, ClosingStatus(action));
        if |b.upcoming| > 0 && promoteOk then
          var promoted := SetStatus(closed, b.upcoming[0].id, InProgress);
          StatusOnlyChangeTrans(items, closed, promoted);
          promoted
        else closed
  }

  /** True iff at most one item is in progress. */
  predicate AtMostOneInProgress(items: seq<Item>)
  {
    forall i, j ::
      (0 <= i < |items| && 0 <= j < |items| &&
       items[i].status == InProgress && items[j].status == InProgress) ==> i == j
  }

  /** The current item and the next upcoming item are different rows. */
  lemma CurrentIsNotUpcoming(items: seq<Item>, now: int)
    requires UniqueIds(items)
    requires Classified(items, now).current.Some? && |Classified(items, now).upcoming| > 0
    ensures Classified(items, now).current.value.id != Classified(items, now).upcoming[0].id
  {
    CurrentFacts(items, now);
    UpcomingFacts(items, now);
    var b := Classified(items, now);
    var cur, next := b.current.value, b.upcoming[0];
    assert cur != next;
    var p :| 0 <= p < |items| && items[p] == cur;
    var q :| 0 <= q < |items| && items[q] == next;
  }

  /** Row by row: the current item takes the closing status, the first
      upcoming item becomes in progress only when both writes went
      through, and every other row keeps its status. */
  lemma AdvanceEffect(items: seq<Item>, now: int, action: Action, closeOk: bool, promoteOk: bool, k: nat)
    requires UniqueIds(items) && k < |items|
    ensures var b := Classified(items, now);
            var r := Advance(items, now, action, closeOk, promoteOk);
            r[k].status ==
              if b.current.Some? && closeOk && items[k].id == b.current.value.id then ClosingStatus(action)
              else if b.current.Some? && closeOk && promoteOk && |b.upcoming| > 0 && items[k].id == b.upcoming[0].id
              then InProgress
              else items[k].status
  {
    var b := Classified(items, now);
    var r := Advance(items, now, action, closeOk, promoteOk);
    if b.current.Some? && closeOk {
      var cur := b.current.value;
      var closed := SetStatus(items, cur.id, ClosingStatus(action));
      assert closed[k].id == items[k].id;
      assert closed[k].status == if items[k].id == cur.id then ClosingStatus(action) else items[k].status;
      if |b.upcoming| > 0 && promoteOk {
        var next := b.upcoming[0];
        CurrentIsNotUpcoming(items, now);
        assert r == SetStatus(closed, next.id, InProgress);
        assert r[k].status == if closed[k].id == next.id then InProgress else closed[k].status;
      } else {
        assert r == closed;
      }
    }
  }

  /** With a unique in-progress item (or none), "Skip" and "Mark Complete"
      end with at most one item in progress: the closed item is no longer
      in progress and at most the promoted item is. */
  lemma AdvanceKeepsOneInProgress(items: seq<Item>, now: int, action: Action, closeOk: bool, promoteOk: bool)
    requires UniqueIds(items) && AtMostOneInProgress(items)
    ensures AtMostOneInProgress(Advance(items, now, action, closeOk, promoteOk))
  {
    var b := Classified(items, now);
    var r := Advance(items, now, action, closeOk, promoteOk);
    if b.current.Some? && closeOk {
      var cur := b.current.value;
      CurrentFacts(items, now);
      // the item in progress, if any, is the current one
      forall k | 0 <= k < |items| && items[k].status == InProgress
        ensures items[k].id == cur.id
      {
        var p :| 0 <= p < |items| && items[p] == cur;
      }
      forall i, j | 0 <= i < |r| && 0 <= j < |r| && r[i].status == InProgress && r[j].status == InProgress
        ensures i == j
      {
        AdvanceEffect(items, now, action, closeOk, promoteOk, i);
        AdvanceEffect(items, now, action, closeOk, promoteOk, j);
      }
    }
  }


  /** The event controls of the live view. */
  datatype Control = StartEvent | PauseEvent | ResumeEvent | EndEvent

  /** The controls on screen: none without items, "Start Event" outside a
      run, and during a run "Resume" or "Pause" (as the event is paused or
      not) together with "End Event". */
  function Offered(status: Events.EventStatus, itemCount: nat): (cs: set<Control>)
    ensures itemCount == 0 ==> cs == {}
    ensures StartEvent in cs <==> itemCount > 0 && status != Events.Live && status != Events.Paused
    ensures PauseEvent in cs <==> itemCount > 0 && status == Events.Live
    ensures ResumeEvent in cs <==> itemCount > 0 && status == Events.Paused
    ensures EndEvent in cs <==> itemCount > 0 && (status == Events.Live || status == Events.Paused)
  {
    if itemCount == 0 then {}
    else if status != Events.Live && status != Events.Paused then {StartEvent}
    else if status == Events.Paused then {ResumeEvent, EndEvent}
    else {PauseEvent, EndEvent}
  }

  /** The status each control asks the server for. */
  function Requested(c: Control): (s: Events.EventStatus)
    ensures s == Events.Live || s == Events.Paused || s == Events.Completed
    ensures s == Events.Paused <==> c == PauseEvent
    ensures s == Events.Completed <==> c == EndEvent
  {
    match c
    case StartEvent => Events.Live
    case PauseEvent => Events.Paused
    case ResumeEvent => Events.Live
    case EndEvent => Events.Completed
  }

  /** The event status after pressing `c` when the request succeeds or not
      (`ok`); a control that is not on screen cannot be pressed. */
  function Press(status: Events.EventStatus, itemCount: nat, c: Control, ok: bool): (next: Events.EventStatus)
    ensures c !in Offered(status, itemCount) || !ok ==> next == status
    ensures next != status ==> next == Requested(c)
  {
    if c in Offered(status, itemCount) && ok then Requested(c) else status
  }

  /** Every control on screen asks for a status other than the current
      one, so a successful press always changes the event's status. */
  lemma OfferedControlChangesStatus(status: Events.EventStatus, itemCount: nat, c: Control)
    requires c in Offered(status, itemCount)
    ensures Requested(c) != status
    ensures Press(status, itemCount, c, true) != status
  {
  }

  /** Statuses reached by a sequence of presses. */
  function Run(status: Events.EventStatus, itemCount: nat, presses: seq<(Control, bool)>): Events.EventStatus
  {
    if |presses| == 0 then status
    else Press(Run(status, itemCount, presses[..|presses| - 1]), itemCount,
               presses[|presses| - 1].0, presses[|presses| - 1].1)
  }

  /** Once an event has been started from this view, no sequence of
      presses leaves the cycle live / paused / completed. */
  lemma {:induction false} RunStaysInCycle(status: Events.EventStatus, itemCount: nat, presses: seq<(Control, bool)>)
    requires status == Events.Live || status == Events.Paused || status == Events.Completed
    ensures var s := Run(status, itemCount, presses); s == Events.Live || s == Events.Paused || s == Events.Completed
  {
    if |presses| > 0 {
      RunStaysInCycle(status, itemCount, presses[..|presses| - 1]);
    }
  }

  /** Pausing and then resuming a live event brings it back to live, and
      ending is offered at every point in between. */
  lemma PauseResume(itemCount: nat)
    requires itemCount > 0
    ensures Press(Press(Events.Live, itemCount, PauseEvent, true), itemCount, ResumeEvent, true) == Events.Live
    ensures EndEvent in Offered(Events.Live, itemCount) && EndEvent in Offered(Events.Paused, itemCount)
  {
    assert Press(Events.Live, itemCount, PauseEvent, true) == Events.Paused;
  }
}
