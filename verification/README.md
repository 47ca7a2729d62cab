# Timeline: a Dafny model of the scheduling core

This project models the logic of a small event-timeline web application.
An event has a list of timeline items. Each item has a start time, an
optional end time, a status and an `order_index`. A live view steps
through the items while the event runs. The model covers:

- **The "jump to item" route** (`POST /api/timeline-items/jump-to`,
  module `JumpTo`). The clicked item starts now. Every item before it is
  marked skipped with its times kept. Every item after it keeps its
  original offset from the clicked item and its duration. The route then
  writes every row and reports a 500 if any write failed. Before that, it
  answers 400 when no id is given and 404 for an unknown item.
- **The live view** (module `LiveTimeline`). It sorts the items by
  `order_index` and classifies them into the current item, the upcoming
  items and the completed items. It models the "Skip" / "Mark Complete"
  step, which closes the current item and promotes the first upcoming
  one. It also models the event controls (Start, Pause, Resume, End)
  offered in each event status.
- **The helpers of `lib/timeline-utils.ts`** (module `TimelineUtils`):
  the category labels, `combineDateTime` and `extractTime`. It includes
  the round trip between a typed `HH:MM` time and the stored timestamp.
- **The two forms** (modules `Forms`, `ItemForm`, `EventForm`). This
  covers field validation, validity as "no error", and the record a new
  item or event is created with.
- **The events list** (module `EventsList`): the time tabs, the name
  search, the sort by date, and the empty-state texts and action.

Supporting modules:

- `Seqs`: filter, first/last match, and a stable insertion sort with its
  stability lemma.
- `Text`: JavaScript's `trim`, ASCII `toLowerCase`, `includes`, string
  order by code point, `padStart` and `length` in UTF-16 code units.
- `Items` and `Events`: the two table rows.
- `Wrappers`: `Option`.

Conventions:

- Timestamps are integer milliseconds. Event dates are integer day
  numbers.
- String lengths are counted as JavaScript's `length` counts them: in
  UTF-16 code units, so a character outside the Basic Multilingual Plane
  (an emoji, say) counts twice.
- The clock is a parameter (`now`, `today`).
- The database is a sequence of rows.
- Whether a write fails is an input: a set of failing row ids for the
  route, a boolean per request for the live view.

Several definitions are given twice: once as the code computes them (a
loop, an accumulated sum, a chain of filters) and once as an independent
reference. A lemma equates the two:

- `ScheduleIsRigidShift`: the accumulated sum of gaps equals the closed-form shift.
- `ClassifyMeaning`: the `forEach` classifier equals the declarative buckets.
- `FilteredEventsSpec`: the filter pipeline equals the `Matches` predicate, sorted.
- `ItemFormValidIff` and `EventFormValidIff`: each validator equals field-by-field validity.

## Model

| member | source | states |
|---|---|---|
| JumpTo.Intervals | app/api/timeline-items/jump-to/route.ts:56-62 | There is one gap fewer than there are items (none for zero or one item). Gap `i` is item `i+1`'s start minus item `i`'s start, and a negative gap is kept. |
| JumpTo.Telescope | app/api/timeline-items/jump-to/route.ts:107-113 | The cumulative interval from the clicked item up to item `i` equals the difference of their original start times. |
| JumpTo.ShiftEnd | app/api/timeline-items/jump-to/route.ts:90-96 | A moved end is present exactly when the original end was, and keeps the original duration relative to the new start. |
| JumpTo.PlanItem | app/api/timeline-items/jump-to/route.ts:74-131 | The update for one position carries the item's id. Items before the clicked one are skipped with their times kept. The clicked item is in progress from now. Later items are pending. From the clicked item on, a missing end stays missing and every duration is kept. |
| JumpTo.PlanPrefix | app/api/timeline-items/jump-to/route.ts:68-132 | After `n` loop iterations the update list holds `n` updates, and update `i` is what the loop body computes for item `i`. |
| JumpTo.Schedule | app/api/timeline-items/jump-to/route.ts:64-132 | One update per item, in list order, carrying the item's id. Exactly one update is in progress: the clicked item's. Earlier items are skipped with start and end copied (null stays null). From the clicked item on, each start is now plus the item's original offset from the clicked item, and later items are pending. Every duration and every missing end is preserved. |
| JumpTo.ScheduleIsRigidShift | app/api/timeline-items/jump-to/route.ts:68-132 | The loop, which accumulates gaps, computes exactly the rigid shift: each item moves by the same amount as the clicked item, and earlier items stay skipped in place. |
| JumpTo.SpacingPreserved | app/api/timeline-items/jump-to/route.ts:106-131 | From the clicked item on, the difference between any two new starts equals the difference between their original starts, so their order is unchanged. |
| JumpTo.ScheduleTranslates | app/api/timeline-items/jump-to/route.ts:65-113 | Because one clock reading is used for every item, a later reading shifts every re-planned start by the delay and leaves the skipped updates unchanged. |
| JumpTo.ReplanAfterCommit | app/api/timeline-items/jump-to/route.ts:68-144 | For one ordering of the event's list: once a jump has been written in full, re-planning the same list at a later time gives exactly what the first jump would have planned at that time. |
| JumpTo.Apply | app/api/timeline-items/jump-to/route.ts:138-143 | A write sets the start, end and status of a row, and nothing else. |
| JumpTo.WriteRow | app/api/timeline-items/jump-to/route.ts:136-144 | A write changes every row whose id matches and no other row. |
| JumpTo.CommitStore | app/api/timeline-items/jump-to/route.ts:135-147 | Attempting every write keeps the table's size, and leaves unchanged every row that no successful write addresses. |
| JumpTo.CommitRow | app/api/timeline-items/jump-to/route.ts:135-147 | Each row ends up with the last successful write addressed to it. A row with no successful write keeps its value. |
| JumpTo.CommitLandsUpdate | app/api/timeline-items/jump-to/route.ts:135-157 | Each row of the event holds its own update unless its own write failed, whatever happened to the other writes. Nothing is rolled back. |
| JumpTo.CommitKeepsRows | app/api/timeline-items/jump-to/route.ts:138-144 | Committing keeps every row's id, event, title, category and order index, and keeps the rows in place. |
| JumpTo.FailedWrites | app/api/timeline-items/jump-to/route.ts:150 | The list of failed results is empty exactly when no update's write failed. |
| JumpTo.StatusCode | app/api/timeline-items/jump-to/route.ts:9-163 | Each reply has its own code: 400 exactly for a missing id, 404 exactly for the two "not found" replies, 500 exactly for a failed write, and 200 exactly on success. |
| JumpTo.Lookup | app/api/timeline-items/jump-to/route.ts:19-30 | `.single()` finds a row exactly when one row has the id. The row found has that id and is in the table. |
| JumpTo.EventItems | app/api/timeline-items/jump-to/route.ts:33-37 | The event's list holds only rows of that event, in ascending `order_index`. |
| JumpTo.EventItemsMembers | app/api/timeline-items/jump-to/route.ts:33-37 | A row is in the event's list exactly when it is in the table and belongs to the event. |
| JumpTo.EventItemsUnique | app/api/timeline-items/jump-to/route.ts:33-37 | When ids are unique in the table, they are unique in the event's list read from it. |
| JumpTo.IndexOfId | app/api/timeline-items/jump-to/route.ts:47 | `findIndex` finds nothing exactly when no item has the id. Otherwise it returns the first index whose item has the id. |
| JumpTo.AnchorInEvent | app/api/timeline-items/jump-to/route.ts:47-54 | In the model's single table snapshot, the clicked item is always found in its own event's list, so the model never gives the "not found in event" 404. The source reads the table twice and can give it; see "## Left out". |
| JumpTo.Handle | app/api/timeline-items/jump-to/route.ts:4-163 | A missing or empty id gets 400, and an id naming no single row gets 404; both happen before any write. Reading one table snapshot, the model never answers "not found in event"; the source can (see "## Left out"). Writes touch only the scheduling columns. On success, exactly one update is in progress and it is the clicked item's. |
| JumpTo.ReplanAndCommit | app/api/timeline-items/jump-to/route.ts:64-163 | After the clicked item is located, the table left behind is the result of attempting every write, with none rolled back. With ids unique in the table (`EventItemsUnique`), `CommitRow` and `CommitLandsUpdate` therefore describe it. Only scheduling columns change. The reply is the 500 exactly when some write failed, and otherwise it is success carrying the full update list. |
| JumpTo.EventWriteFails | app/api/timeline-items/jump-to/route.ts:147-151 | Some write of a per-row update list for an event fails exactly when some row of that event is in the failing set. |
| JumpTo.HandleFailsIff | app/api/timeline-items/jump-to/route.ts:149-163 | For an existing clicked item, the route answers 500 exactly when a row of its event could not be written, and answers success otherwise. |
| LiveTimeline.SortedItems | components/timeline/live-timeline.tsx:47-49 | The items sorted by `order_index`: the same multiset, ascending, and items with equal index kept in input order. |
| LiveTimeline.EffectiveEnd | components/timeline/live-timeline.tsx:60-63 | The end the view uses is the item's end time when set, and otherwise 30 minutes after its start. |
| LiveTimeline.Step | components/timeline/live-timeline.tsx:59-90 | One item joins at most one group, at the end of it. A current item already chosen is displaced only by an item in progress. |
| LiveTimeline.Classify | components/timeline/live-timeline.tsx:52-90 | The three groups together hold at most as many entries as there are items. Which items they hold, and in what order, is stated by `ClassifyMeaning`. |
| LiveTimeline.ClassifyCurrent | components/timeline/live-timeline.tsx:55-81 | The current item is the last item in progress. If there is none, it is the first pending item whose window contains now. |
| LiveTimeline.ClassifyMeaning | components/timeline/live-timeline.tsx:52-97 | The classifier equals the declarative buckets. The current item is as in `ClassifyCurrent`. Upcoming is the pending items not yet started. Completed is the completed and skipped items plus the started pending items past their effective end. Both buckets keep the sorted order. |
| LiveTimeline.ClosedItemsAreDone | components/timeline/live-timeline.tsx:66-72 | Completed and skipped items are always in the completed bucket. An item in progress is never in the upcoming or completed bucket. |
| LiveTimeline.PendingItemsByTime | components/timeline/live-timeline.tsx:82-89 | A pending item that has not started is upcoming. A started pending item past its effective end is completed. |
| LiveTimeline.BucketsSorted | components/timeline/live-timeline.tsx:47-90 | The upcoming and completed buckets are in `order_index` order. |
| LiveTimeline.CurrentFacts | components/timeline/live-timeline.tsx:59-81 | The current item is an item of the list that is in progress or pending inside its window. If any item is in progress, the current item is in progress. |
| LiveTimeline.UpcomingFacts | components/timeline/live-timeline.tsx:82-85 | Every upcoming item is an item of the list that is pending and not yet started. |
| LiveTimeline.CompletedFacts | components/timeline/live-timeline.tsx:69-89 | Every completed-bucket item is an item of the list that is either closed, or pending, started and past its effective end. |
| LiveTimeline.HiddenBehindInProgress | components/timeline/live-timeline.tsx:59-90 | The buckets are not a partition. When some item is in progress, a pending item inside its window is in no bucket. |
| LiveTimeline.HiddenBehindEarlierWindow | components/timeline/live-timeline.tsx:73-81 | Of two distinct pending items inside their windows, neither is upcoming or completed, and at most one is current. When no item is in progress, some item inside its window is current. |
| LiveTimeline.SetStatus | components/timeline/live-timeline.tsx:209-218 | A status write changes the status of the rows with that id and nothing else. |
| LiveTimeline.Advance | components/timeline/live-timeline.tsx:206-274 | With no current item, or when closing it fails, nothing changes. Otherwise only statuses change. |
| LiveTimeline.AdvanceEffect | components/timeline/live-timeline.tsx:206-274 | Row by row: the current item takes the skipped or completed status. The first upcoming item becomes in progress only when both writes went through. Every other row keeps its status. |
| LiveTimeline.AdvanceKeepsOneInProgress | components/timeline/live-timeline.tsx:206-274 | Starting from at most one item in progress, "Skip" and "Mark Complete" leave at most one item in progress. |
| LiveTimeline.Offered | components/timeline/live-timeline.tsx:140-410 | With no items, no control is shown. "Start Event" is shown exactly outside live and paused. "Pause" is shown exactly when live, "Resume" exactly when paused, and "End Event" in both. |
| LiveTimeline.Requested | components/timeline/live-timeline.tsx:112-349 | Each control asks for live, paused or completed, never draft or cancelled. Only "Pause" asks for paused, and only "End Event" for completed. |
| LiveTimeline.OfferedControlChangesStatus | components/timeline/live-timeline.tsx:112-410 | Every control on screen asks for a status other than the event's current one, so a successful press always changes it. |
| LiveTimeline.Press | components/timeline/live-timeline.tsx:112-349 | Pressing a control that is not shown, or whose request fails, changes nothing. Any change is to the status that control requests. |
| LiveTimeline.RunStaysInCycle | components/timeline/live-timeline.tsx:295-349 | Once live, paused or completed, no sequence of presses leaves those three statuses. |
| LiveTimeline.PauseResume | components/timeline/live-timeline.tsx:295-325 | Pausing and then resuming a live event makes it live again, and "End Event" is offered in both states. |
| Seqs.SortByStable | components/events/events-list.tsx:44-48 | The sort by a numeric key keeps the input order of the elements that share a key. |
| TimelineUtils.CategoryKey | lib/timeline-utils.ts:11-20 | Every category's stored key reads back as that category. |
| TimelineUtils.CategoryLabel | lib/timeline-utils.ts:11-20 | Every one of the five categories has a non-empty label starting with a capital letter. |
| TimelineUtils.LabelCapitalizesKey | lib/timeline-utils.ts:11-20 | Each label is its category's key with the initial capitalised. |
| TimelineUtils.CategoryLabelsDistinct | lib/timeline-utils.ts:11-20 | No two categories share a label. |
| TimelineUtils.CombineDateTime | lib/timeline-utils.ts:42-44 | The timestamp is the date, then `T`, then the time input, then `:00`, so its length is the two lengths plus 4. |
| TimelineUtils.Pad2 | lib/timeline-utils.ts:66-67 | Below 100, the padded number is two digits that spell it, with a leading zero below 10. |
| TimelineUtils.ExtractTime | lib/timeline-utils.ts:64-69 | For an hour below 24 and a minute below 60, the result is a 5-character `HH:MM` string that reads that hour and minute. |
| TimelineUtils.ExtractTimeOfClock | lib/timeline-utils.ts:64-69 | Formatting the hour and minute of a well-formed `HH:MM` string gives that string back. |
| TimelineUtils.TimeInputRoundTrip | lib/timeline-utils.ts:42-69 | A typed time, combined with the event date and read back for editing, is the time that was typed. |
| TimelineUtils.StoredTimeRoundTrip | lib/timeline-utils.ts:42-69 | The time shown for a stored hour and minute, combined again with the date, stores the same hour and minute. |
| TimelineUtils.ClockLexOrder | components/timeline/timeline-item-form.tsx:63-67 | On well-formed `HH:MM` strings, string order is chronological order. |
| TimelineUtils.ClockStrLe | components/timeline/timeline-item-form.tsx:63-67 | `end <= start` on time inputs holds exactly when the end is not later in the day than the start. |
| Text.Utf16Length | components/events/event-form.tsx:33-50 | `length` counts UTF-16 code units: at least one and at most two per character. |
| Text.Utf16LengthIffBmp | components/timeline/timeline-item-form.tsx:51-70 | The code-unit length equals the character count exactly when every character lies in the Basic Multilingual Plane. |
| Forms.NameError | components/timeline/timeline-item-form.tsx:51-57 | A name is accepted exactly when it is not blank and its untrimmed length is 3 to 200 UTF-16 code units. Otherwise exactly one message is given, in priority order: required, then too short, then too long. |
| Forms.NameErrorBmp | components/timeline/timeline-item-form.tsx:51-57 | For text inside the Basic Multilingual Plane, the name rule counts characters: 3 to 200 of them. |
| Forms.NameCountsSurrogatePairs | components/events/event-form.tsx:33-39 | A name made only of characters outside the Basic Multilingual Plane passes exactly when it has 2 to 100 of them: two emoji are long enough, and 101 are reported as too long. |
| Forms.OverLimit | components/events/event-form.tsx:45-50 | The limit check of an optional field holds exactly when the value is longer than the limit in UTF-16 code units, so an empty field never fails it. |
| Forms.OrNull | components/timeline/timeline-item-form.tsx:113 | `value \|\| null` is null exactly for the empty string, and is the value otherwise. |
| Forms.OrEmpty | components/timeline/timeline-item-form.tsx:44 | `value \|\| ''` inverts `OrNull`, except that a stored empty string reads back as empty. |
| ItemForm.ValidateItemForm | components/timeline/timeline-item-form.tsx:48-75 | The title follows the name rule. The start time is reported exactly when empty. The end time is reported exactly when both times are set and the end is not after the start by string order. The description is reported exactly when longer than 2000 UTF-16 code units. Each message is as given. |
| ItemForm.ItemFormValidIff | components/timeline/timeline-item-form.tsx:48-75 | The form is valid exactly when every field passes, with lengths in UTF-16 code units. For well-formed time inputs, the end-time error means the end is not later in the day than the start. |
| ItemForm.EmptyItemFormInvalid | components/timeline/timeline-item-form.tsx:51-61 | A blank form reports a missing title and a missing start time, and nothing else. |
| ItemForm.NewItemInsert | components/timeline/timeline-item-form.tsx:90-117 | The end is null exactly when no end time was typed, and the description is null exactly when empty. A new item has `order_index` 0, and its times begin with the event date. |
| ItemForm.ShownTime | components/timeline/timeline-item-form.tsx:37-39 | A stored timestamp with readable clock fields shows as the well-formed `HH:MM` input of that hour and minute. Any other shows as the empty input. |
| ItemForm.EditFormOf | components/timeline/timeline-item-form.tsx:36-45 | The edit form shows the stored title and category. A null end shows as an empty input. The start input is empty exactly when the start is unreadable. A null description shows as empty, and any other as stored. |
| ItemForm.EditRoundTrip | components/timeline/timeline-item-form.tsx:37-45 | An item created from a form with well-formed times, reopened for editing, shows exactly the form that created it. |
| EventForm.ValidateEventForm | components/events/event-form.tsx:30-55 | The name follows the name rule. The date is reported exactly when empty. The location is reported exactly when longer than 500 UTF-16 code units, and the description exactly when longer than 2000, so empty optional fields are never reported. Each message is as given. |
| EventForm.EventFormValidIff | components/events/event-form.tsx:30-55 | The form is valid exactly when every field passes, with lengths in UTF-16 code units. |
| EventForm.EmptyEventFormInvalid | components/events/event-form.tsx:33-43 | A blank form reports a missing name and a missing date, and nothing else. |
| EventForm.NewEventInsert | components/events/event-form.tsx:88-95 | A new event is a draft. Empty optional fields are stored as null, and reading them back gives the typed values. |
| EventsList.ByTime | components/events/events-list.tsx:25-33 | A tab keeps a sub-multiset of the events. Its test compares day numbers, which is the source's test at UTC or east of it (`TabBoundary`). |
| EventsList.TabBoundary | components/events/events-list.tsx:25-33 | The source compares an event's date, read as UTC midnight, with local midnight. For any offset under a day, an event is upcoming exactly when dated today or later at UTC or east of it, and exactly when dated after today west of it. |
| EventsList.InstantTabsAtOrEastOfUtc | components/events/events-list.tsx:25-33 | At UTC or east of it, the source's Upcoming and Past tabs are exactly the day-number tabs. |
| EventsList.TodayIsPastWestOfUtc | components/events/events-list.tsx:25-33 | West of UTC, an event dated today is on the Past tab and not on the Upcoming tab. |
| EventsList.BySearch | components/events/events-list.tsx:35-41 | The search keeps a sub-multiset of the events. |
| EventsList.FilteredEvents | components/events/events-list.tsx:22-51 | The cards shown are a sub-multiset of the events, in ascending date order. |
| EventsList.SelectionMatches | components/events/events-list.tsx:25-41 | The time filter followed by the search keeps exactly the events that match, in input order. An event matches when it is in the tab's date range and, unless the query is blank, its lower-cased name contains the lower-cased query. |
| EventsList.FilteredEventsSpec | components/events/events-list.tsx:22-51 | The page shows the matching events sorted stably by date. |
| EventsList.FilteredEventsMembers | components/events/events-list.tsx:22-51 | An event is shown exactly when it is in the list and matches. |
| EventsList.FilteredEventsStable | components/events/events-list.tsx:43-48 | Events on the same date keep their input order. |
| EventsList.TabsPartitionAll | components/events/events-list.tsx:29-33 | For any query, the Upcoming and Past tabs together show each event of the All tab exactly as often as it does. |
| EventsList.SearchIgnoresCase | components/events/events-list.tsx:36-41 | Lower-casing the query does not change the result. |
| EventsList.BlankQueryKeepsTab | components/events/events-list.tsx:36-41 | A query of only whitespace gives the same cards as no query. |
| EventsList.CreateAction | components/events/events-list.tsx:84-86 | "Create Event" is offered exactly when there is no query and no events. |
| EventsList.CreateActionMatchesTitle | components/events/events-list.tsx:54-86 | The "Create Event" action appears exactly with the "No events yet" text, whatever the tab. |
| EventsList.EmptyReasonOf | components/events/events-list.tsx:54-68 | The empty-state text is chosen in priority order: any search text gives "No events found". Then an empty list gives "No events yet". Then the Upcoming tab gives "No upcoming events", and any other tab "No past events". |
| EventsList.EmptyPageIffNoneMatch | components/events/events-list.tsx:22-53 | The empty state is shown exactly when no event of the list matches the tab and the query. |
| EventsList.EmptyStateIsAccurate | components/events/events-list.tsx:53-68 | When no event matches, so that the page is empty, the chosen text is true. "No upcoming events" means every event is past. "No past events" means the Past tab is open and every event is upcoming. "No events found" for a non-blank query means no event of the tab contains it. |
| EventsList.WhitespaceQueryEmptyState | components/events/events-list.tsx:36-60 | With no events, a query of only whitespace filters nothing out, yet the page says "No events found" and offers no "Create Event", because the title and action look at the raw query while the filter looks at the trimmed one. |

## Left out

- Supabase, `fetch`, `router.refresh` / `router.push` and the React state are I/O. They are replaced by the parameters described above.
- The route's request parsing, and its generic 500 for a thrown exception (app/api/timeline-items/jump-to/route.ts:6-7, 164-170). These are I/O. The id arrives as an `Option<string>`.
- The failure of the route's list read (app/api/timeline-items/jump-to/route.ts:39-44) is not modelled. The read is taken from the same table as the look-up.
- `JumpTo.Handle`: the look-up (app/api/timeline-items/jump-to/route.ts:19-30) and the list read (route.ts:33-37) are two separate queries in the source, and a change to the table between them is not modelled. If the clicked row is deleted in between, `findIndex` returns -1 (route.ts:47) and the source answers the "not found in event" 404 (route.ts:49-54), which `JumpTo.AnchorInEvent` rules out for the model's single snapshot.
- `JumpTo.AnchorInEvent`: holds for the model's single table snapshot only. It does not cover a row deleted between the route's two reads, as the line above describes.
- `Promise.all` runs the route's writes concurrently. They are modelled as applied one after another, which gives the same table, since each write addresses its own row.
- The `updated_at` stamp is not modelled. Each update reads the clock afresh for it.
- `Date` parsing, ISO formatting, time zones and `formatTime` are abstracted away. Timestamps are integers and event dates are day numbers. The events list's tab boundary, where the time zone decides the tab, is modelled separately by `EventsList.TabBoundary`.
- `EventsList.ByTime`: compares day numbers, so its tabs are the source's only at UTC or east of it. West of UTC the source puts an event dated today on the Past tab, as `EventsList.TodayIsPastWestOfUtc` states.
- `ItemForm.ShownTime`: reads the clock fields written after the first `T` of the stored string, rather than parsing a `Date` and reading its local hours and minutes. For a date-time string without a zone, as `combineDateTime` builds it, both read the same clock time. The jump-to route stores UTC strings ending in `Z` (`toISOString`, app/api/timeline-items/jump-to/route.ts:82-83, 101-102, 126-127). For those, the source shows the time shifted by the local offset, for example 10:00 for 15:00Z at UTC-5, and the model shows the UTC fields. An unparseable timestamp shows as "NaN:NaN" in the source, which passes the required-time check. The model shows the empty time.
- The one-second clock tick of the live view is left out. The view is evaluated at a given `now`.
- The progress percentage and the "minutes remaining" display are left out, because they are floating-point.
- The server's item and event status routes are not part of this model. The live view's requests are modelled as simply succeeding or failing.
- The view ignores the result of the request that promotes the next item. The model therefore takes that outcome as a separate input.
- The live view's "jump to" control, a double-click on an item of the sidebar (components/timeline/live-timeline.tsx:563), is left out. It only posts to the route modelled in `JumpTo`.
- Editing an existing item or event (the update branches of the two forms) is left out. Only the form values an edit view shows are modelled (`ItemForm.EditFormOf`).
- The CRUD wrappers under `lib/database/` are not part of this model.
- Pages, navigation, badges and loading and error screens are not part of this model.
- `Text.LexLess` compares strings by code point, while JavaScript compares UTF-16 code units. The two orders differ only between characters above U+FFFF and characters from U+E000 to U+FFFF. The model applies it only to `HH:MM` time inputs.
- `Text.Lower` models `toLowerCase` on ASCII letters only. Other characters are unchanged.
- `JumpTo.EventItems`: the database returns rows with equal `order_index` in no specified order, and the model fixes one order for them, table order. When order indices tie, which items the route marks skipped depends on that order.
- `JumpTo.ReplanAfterCommit`: holds for one fixed ordering of the event's list. A second request reads the list again and may see tied items in another order. The claim therefore covers the route only when the event's order indices are distinct. The route's writes never change them (`JumpTo.CommitKeepsRows`).

## Behaviour worth noting

The model follows the code in each case:

- The route takes the items to re-plan from the clicked item's event, and does no further check that they all belong to one event. A failed write is reported as a plain 500 that does not name the failed items.
- The live view offers "Start Event" whenever the event is neither live nor paused. That includes a completed or cancelled event.
- The name messages say "less than 200 characters", but a name of exactly 200 characters is accepted. The same holds for the location (500) and description (2000) limits.
- A query of only whitespace does not filter the list. The empty state still shows "No events found" for it, and withholds "Create Event": the title and action test the raw query, not the trimmed one. The lemma `EventsList.WhitespaceQueryEmptyState` shows this for an empty list.
- Ties in `order_index` are common: the item form creates every item with `order_index` 0 (components/timeline/timeline-item-form.tsx:116). The live view loads the items by start time and then sorts them stably by `order_index` (lib/database/timeline-items.ts:23, components/timeline/live-timeline.tsx:47-49), so it breaks ties by start time. The route breaks them in whatever order the database returns. The items the route marks skipped can therefore differ from the items the live view shows before the clicked one.
- West of UTC, the Upcoming tab omits the events dated today and the Past tab shows them. `new Date(event_date)` reads the date as UTC midnight, which lies before local midnight there (`EventsList.TodayIsPastWestOfUtc`).
- The edit form shows a re-planned item's times in the browser's local time. The jump-to route writes them as UTC strings, and `extractTime` reads local hours (lib/timeline-utils.ts:64-67). So away from UTC, an item moved by a jump opens for editing at a different clock time than the one the route stored.
