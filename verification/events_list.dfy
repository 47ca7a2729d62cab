/** The events list page: the time filter, the name search, the order of
    the cards and the empty-state message. Event dates and "today" are
    day numbers. */
module EventsList {
  import opened Wrappers
  import opened Seqs
  import opened Text
  import opened Events

  /** The tabs of the filter bar. */
  datatype TimeFilter = All | Upcoming | Past

  /** The time filter of one tab, on day numbers: upcoming events are
      those dated today or later, past events those dated before today.
      This is the source's comparison of instants only at UTC or east of
      it; `TabBoundary` states the comparison the source makes. */
  function ByTime(events: seq<Event>, filter: TimeFilter, today: int): (r: seq<Event>)
    ensures |r| <= |events| && multiset(r) <= multiset(events)
  {
    match filter
    case All => events
    case Upcoming => Filter(events, UpcomingAt(today))
    case Past => Filter(events, PastAt(today))
  }

  function UpcomingAt(today: int): Event -> bool
  {
    (e: Event) => e.date >= today
  }

  function PastAt(today: int): Event -> bool
  {
    (e: Event) => e.date < today
  }

  /** Milliseconds in a day: day number `d` starts at instant
      `d * MsPerDay` in UTC. */
  const MsPerDay: int := 24 * 60 * 60 * 1000

  /** The source's Upcoming test on instants: `new Date(event_date)`
      reads a date-only string as UTC midnight, while `today` is local
      midnight of day `today`, with local time `offset` milliseconds ahead
      of UTC (negative west of Greenwich). The Past test is its negation. */
  function UpcomingInstantAt(today: int, offset: int): Event -> bool
  {
    (e: Event) => e.date * MsPerDay >= today * MsPerDay - offset
  }

  /** Where the instant comparison puts the tab boundary, for any offset
      of less than a day: at UTC or east of it, exactly at today's date;
      west of it, one day later, so an event dated today is past. */
  lemma TabBoundary(e: Event, today: int, offset: int)
    requires -MsPerDay < offset < MsPerDay
    ensures offset >= 0 ==> (UpcomingInstantAt(today, offset)(e) <==> UpcomingAt(today)(e))
    ensures offset < 0 ==> (UpcomingInstantAt(today, offset)(e) <==> e.date > today)
  {
    if e.date >= today + 1 {
      assert e.date * MsPerDay >= today * MsPerDay + MsPerDay;
    } else if e.date <= today - 1 {
      assert e.date * MsPerDay <= today * MsPerDay - MsPerDay;
    }
  }

  /** At UTC or east of it, the source's tabs are the day-number tabs. */
  lemma InstantTabsAtOrEastOfUtc(events: seq<Event>, today: int, offset: int)
    requires 0 <= offset < MsPerDay
    ensures Filter(events, UpcomingInstantAt(today, offset)) == ByTime(events, Upcoming, today)
    ensures Filter(events, (e: Event) => !UpcomingInstantAt(today, offset)(e)) == ByTime(events, Past, today)
  {
    forall k | 0 <= k < |events| {
      TabBoundary(events[k], today, offset);
    }
    FilterSame(events, UpcomingInstantAt(today, offset), UpcomingAt(today));
    FilterSame(events, (e: Event) => !UpcomingInstantAt(today, offset)(e), PastAt(today));
  }

  /** West of UTC, an event dated today is on the Past tab and not on the
      Upcoming tab. */
  lemma TodayIsPastWestOfUtc(e: Event, today: int, offset: int)
    requires -MsPerDay < offset < 0 && e.date == today
    ensures Filter([e], UpcomingInstantAt(today, offset)) == []
    ensures Filter([e], (x: Event) => !UpcomingInstantAt(today, offset)(x)) == [e]
  {
    TabBoundary(e, today, offset);
    assert [e][..0] == [];
  }

  function NameHas(query: string): Event -> bool
  {
    (e: Event) => Contains(Lower(e.name), Lower(query))
  }

  /** The name search: applied only when the query is not blank after
      trimming, and then on the lower-cased but untrimmed query. */
  function BySearch(events: seq<Event>, query: string): (r: seq<Event>)
    ensures |r| <= |events| && multiset(r) <= multiset(events)
  {
    if Trim(query) != [] then Filter(events, NameHas(query))
    else events
  }

  /** The cards shown, in the order shown: filtered by time, then by name,
      then sorted by date with ties kept in their input order. */
  function FilteredEvents(events: seq<Event>, filter: TimeFilter, query: string, today: int): (shown: seq<Event>)
    ensures SortedBy(shown, DateOf)
    ensures |shown| <= |events|
    ensures multiset(shown) <= multiset(events)
  {
    var selected := BySearch(ByTime(events, filter, today), query);
    var r := SortBy(selected, DateOf);
    assert multiset(r) == multiset(selected);
    r
  }

  /** Whether one event belongs on the page, stated directly: inside the
      tab's time range, and, for a query with a non-whitespace character,
      a name containing the query regardless of ASCII case. */
  predicate Matches(e: Event, filter: TimeFilter, query: string, today: int)
  {
    && (filter == Upcoming ==> e.date >= today)
    && (filter == Past ==> e.date < today)
    && (Blank(query) || Contains(Lower(e.name), Lower(query)))
  }

  function MatchesAt(filter: TimeFilter, query: string, today: int): Event -> bool
  {
    (e: Event) => Matches(e, filter, query, today)
  }

  /** The selection, before sorting, is the filter by `Matches`. */
  lemma SelectionMatches(events: seq<Event>, filter: TimeFilter, query: string, today: int)
    ensures BySearch(ByTime(events, filter, today), query) == Filter(events, MatchesAt(filter, query, today))
  {
    TrimEmptyIffBlank(query);
    var m := MatchesAt(filter, query, today);
    if Blank(query) {
      match filter
      case All => FilterKeepsAll(events, m);
      case Upcoming => FilterSame(events, UpcomingAt(today), m);
      case Past => FilterSame(events, PastAt(today), m);
    } else {
      match filter
      case All => FilterSame(events, NameHas(query), m);
      case Upcoming => FilterTwice(events, UpcomingAt(today), NameHas(query), m);
      case Past => FilterTwice(events, PastAt(today), NameHas(query), m);
    }
  }

  /** The page shows exactly the matching events, sorted stably by date. */
  lemma FilteredEventsSpec(events: seq<Event>, filter: TimeFilter, query: string, today: int)
    ensures FilteredEvents(events, filter, query, today) == SortBy(Filter(events, MatchesAt(filter, query, today)), DateOf)
  {
    SelectionMatches(events, filter, query, today);
  }

  /** An event is shown exactly when it is in the list and matches. */
  lemma FilteredEventsMembers(events: seq<Event>, filter: TimeFilter, query: string, today: int, e: Event)
    ensures e in FilteredEvents(events, filter, query, today) <==> e in events && Matches(e, filter, query, today)
  {
    FilteredEventsSpec(events, filter, query, today);
    var f := Filter(events, MatchesAt(filter, query, today));
    FilterMembers(events, MatchesAt(filter, query, today), e);
    assert e in SortBy(f, DateOf) <==> e in f by {
      assert e in multiset(SortBy(f, DateOf)) <==> e in multiset(f);
    }
  }

  /** Events on the same date keep their relative order from the input. */
  lemma FilteredEventsStable(events: seq<Event>, filter: TimeFilter, query: string, today: int, day: int)
    ensures KeyRun(FilteredEvents(events, filter, query, today), DateOf, day) ==
            KeyRun(Filter(events, MatchesAt(filter, query, today)), DateOf, day)
  {
    FilteredEventsSpec(events, filter, query, today);
    SortByStable(Filter(events, MatchesAt(filter, query, today)), DateOf, day);
  }

  /** The Upcoming and Past tabs together show every event of the All
      tab, each exactly once. */
  lemma TabsPartitionAll(events: seq<Event>, query: string, today: int)
    ensures multiset(FilteredEvents(events, Upcoming, query, today)) +
            multiset(FilteredEvents(events, Past, query, today)) ==
            multiset(FilteredEvents(events, All, query, today))
  {
    var s := BySearch(events, query);
    assert ByTime(events, All, today) == events;
    assert BySearch(ByTime(events, Upcoming, today), query) == Filter(s, UpcomingAt(today)) by {
      SearchAfterTime(events, UpcomingAt(today), query);
    }
    assert BySearch(ByTime(events, Past, today), query) == Filter(s, PastAt(today)) by {
      SearchAfterTime(events, PastAt(today), query);
    }
    SplitByDate(s, today);
  }

  /** The upcoming and the past events of a list together hold each of
      its events exactly as often as the list does. */
  lemma {:induction false} SplitByDate(s: seq<Event>, today: int)
    ensures multiset(Filter(s, UpcomingAt(today))) + multiset(Filter(s, PastAt(today))) == multiset(s)
  {
    if |s| > 0 {
      var s', x := s[..|s| - 1], s[|s| - 1];
      SplitByDate(s', today);
      var u', p' := Filter(s', UpcomingAt(today)), Filter(s', PastAt(today));
      assert Filter(s, UpcomingAt(today)) == u' + (if x.date >= today then [x] else []) by {
        FilterLast(s, UpcomingAt(today));
      }
      assert Filter(s, PastAt(today)) == p' + (if x.date >= today then [] else [x]) by {
        FilterLast(s, PastAt(today));
      }
      SplitStep(u', p', s', x, x.date >= today);
      FrontLast(s);
    }
  }

  /** Adding one element to exactly one side of a split keeps it a split. */
  lemma SplitStep(up: seq<Event>, past: seq<Event>, rest: seq<Event>, x: Event, toUp: bool)
    requires multiset(up) + multiset(past) == multiset(rest)
    ensures multiset(up + (if toUp then [x] else [])) + multiset(past + (if toUp then [] else [x]))
            == multiset(rest + [x])
  {
    if toUp {
      assert past + [] == past;
    } else {
      assert up + [] == up;
    }
  }

  /** Searching after a time filter is time-filtering after the search. */
  lemma SearchAfterTime(events: seq<Event>, p: Event -> bool, query: string)
    ensures BySearch(Filter(events, p), query) == Filter(BySearch(events, query), p)
  {
    if Trim(query) != [] {
      var both := (e: Event) => p(e) && NameHas(query)(e);
      FilterTwice(events, p, NameHas(query), both);
      FilterTwice(events, NameHas(query), p, both);
    }
  }

  /** The search ignores ASCII case: a lower-cased query finds the same
      events. */
  lemma SearchIgnoresCase(events: seq<Event>, filter: TimeFilter, query: string, today: int)
    ensures FilteredEvents(events, filter, Lower(query), today) == FilteredEvents(events, filter, query, today)
  {
    FilteredEventsSpec(events, filter, query, today);
    FilteredEventsSpec(events, filter, Lower(query), today);
    LowerIdempotent(query);
    LowerKeepsBlank(query);
    forall k | 0 <= k < |events|
      ensures Matches(events[k], filter, Lower(query), today) == Matches(events[k], filter, query, today)
    {
    }
    FilterSame(events, MatchesAt(filter, Lower(query), today), MatchesAt(filter, query, today));
  }

  /** A query of only whitespace does not narrow the list. */
  lemma BlankQueryKeepsTab(events: seq<Event>, filter: TimeFilter, query: string, today: int)
    requires Blank(query)
    ensures FilteredEvents(events, filter, query, today) == FilteredEvents(events, filter, "", today)
  {
    FilteredEventsSpec(events, filter, query, today);
    FilteredEventsSpec(events, filter, "", today);
    assert Blank("");
    forall k | 0 <= k < |events|
      ensures Matches(events[k], filter, query, today) == Matches(events[k], filter, "", today)
    {
    }
    FilterSame(events, MatchesAt(filter, query, today), MatchesAt(filter, "", today));
  }

  /** Why the page is empty, each case with its title and description. */
  datatype EmptyReason = NothingFound | NoEventsYet | NoUpcomingEvents | NoPastEvents
  {
    function Title(): string
    {
      match this
      case NothingFound => "No events found"
      case NoEventsYet => "No events yet"
      case NoUpcomingEvents => "No upcoming events"
      case NoPastEvents => "No past events"
    }

    function Description(): string
    {
      match this
      case NothingFound => "Try adjusting your search query"
      case NoEventsYet => "Create your first event to get started with Timeline"
      case NoUpcomingEvents => "You have no upcoming events scheduled"
      case NoPastEvents => "You have no past events"
    }
  }

  /** The empty-state case: a non-empty query (even one of whitespace)
      takes precedence, then an empty event list, then the tab. */
  function EmptyReasonOf(events: seq<Event>, filter: TimeFilter, query: string): (r: EmptyReason)
    // a search wins over everything, then an empty list, then the tab
    ensures query != "" ==> r == NothingFound
    ensures query == "" && |events| == 0 ==> r == NoEventsYet
    ensures query == "" && |events| > 0 ==> (r == NoUpcomingEvents <==> filter == Upcoming)
    ensures query == "" && |events| > 0 && filter != Upcoming ==> r == NoPastEvents
  {
    if query != "" then NothingFound
    else if |events| == 0 then NoEventsYet
    else if filter == Upcoming then NoUpcomingEvents
    else NoPastEvents
  }

  /** The empty state offers "Create Event" only to a user with no events
      at all who is not searching. */
  function CreateAction(events: seq<Event>, query: string): (action: Option<string>)
    ensures action.Some? <==> query == "" && |events| == 0
    ensures action.Some? ==> action.value == "Create Event"
  {
    if query == "" && |events| == 0 then Some("Create Event") else None
  }

  /** "Create Event" accompanies exactly the "No events yet" text. */
  lemma CreateActionMatchesTitle(events: seq<Event>, filter: TimeFilter, query: string)
    ensures CreateAction(events, query).Some? <==> EmptyReasonOf(events, filter, query) == NoEventsYet
    ensures CreateAction(events, query).Some? ==> EmptyReasonOf(events, filter, query).Title() == "No events yet"
  {
  }

  /** No event of the list belongs on the page. */
  predicate NoneMatch(events: seq<Event>, filter: TimeFilter, query: string, today: int)
  {
    forall k :: 0 <= k < |events| ==> !Matches(events[k], filter, query, today)
  }

  /** The page is empty exactly when no event matches. */
  lemma EmptyPageIffNoneMatch(events: seq<Event>, filter: TimeFilter, query: string, today: int)
    ensures |FilteredEvents(events, filter, query, today)| == 0 <==> NoneMatch(events, filter, query, today)
  {
    var shown := FilteredEvents(events, filter, query, today);
    if |shown| == 0 {
      forall k | 0 <= k < |events|
        ensures !Matches(events[k], filter, query, today)
      {
        FilteredEventsMembers(events, filter, query, today, events[k]);
      }
    } else {
      FilteredEventsMembers(events, filter, query, today, shown[0]);
      var k :| 0 <= k < |events| && events[k] == shown[0];
    }
  }

  /** The texts tell the truth when the page is empty (by
      `EmptyPageIffNoneMatch`, when no event matches): "No upcoming
      events" means every event is past, "No past events" means the Past
      tab is open and every event is upcoming (the All tab is never empty
      without a query unless there are no events), and "No events found"
      for a query with a non-whitespace character means no event of the
      tab has the query in its name. */
  lemma EmptyStateIsAccurate(events: seq<Event>, filter: TimeFilter, query: string, today: int)
    requires NoneMatch(events, filter, query, today)
    ensures var reason := EmptyReasonOf(events, filter, query);
            && (reason == NoUpcomingEvents ==> forall k :: 0 <= k < |events| ==> events[k].date < today)
            && (reason == NoPastEvents ==> filter == Past && forall k :: 0 <= k < |events| ==> events[k].date >= today)
            && (reason == NothingFound && !Blank(query) ==>
                  forall k :: 0 <= k < |events| && Matches(events[k], filter, "", today) ==>
                    !Contains(Lower(events[k].name), Lower(query)))
  {
    if |events| > 0 && query == "" {
      assert Blank(query);
      assert !Matches(events[0], filter, query, today);
    }
  }

  /** A whitespace-only query leaves the list unfiltered, yet the empty
      state still reports a failed search and withholds "Create Event". */
  lemma WhitespaceQueryEmptyState(events: seq<Event>, query: string, today: int)
    requires query != "" && Blank(query) && |events| == 0
    ensures |FilteredEvents(events, All, query, today)| == 0
    ensures EmptyReasonOf(events, All, query) == NothingFound
    ensures CreateAction(events, query).None?
  {
  }
}
