/** The Events page: the list it shows (tab, search, starred-only, sort), the
    register button's guards, and the handlers that call the store. */
module EventsPage {
  import opened Types
  import opened Seqs
  import opened Sorting
  import opened StatusRule
  import opened LedgerSpec
  import opened Storage

  /** The search filter: the lower-cased name or club contains the
      lower-cased query. */
  predicate MatchesQuery(e: Event, query: string)
  {
    Contains(Lower(e.name), Lower(query)) || Contains(Lower(e.club), Lower(query))
  }

  /** The three filters of filteredEvents together: the tab, a non-empty
      query, and starred-only when someone is signed in. */
  predicate Shown(e: Event, tab: Status, query: string, starredOnly: bool, user: Option<User>)
  {
    e.status == tab &&
    (query != "" ==> MatchesQuery(e, query)) &&
    (starredOnly && user.Some? ==> user.value.id in e.starredBy)
  }

  function TabIs(tab: Status): Event -> bool
  {
    (e: Event) => e.status == tab
  }

  function MatchingQuery(query: string): Event -> bool
  {
    (e: Event) => MatchesQuery(e, query)
  }

  /** The filter chain of filteredEvents: by tab, then by the query when it
      is non-empty, then by starring when starred-only is on and someone is
      signed in.  An event passes with the multiplicity it has in the page
      exactly when it passes all three. */
  function Filtered(events: seq<Event>, tab: Status, query: string, starredOnly: bool, user: Option<User>)
    : (r: seq<Event>)
    ensures forall e :: multiset(r)[e] == if Shown(e, tab, query, starredOnly, user) then multiset(events)[e] else 0
  {
    var byTab := Filter(events, TabIs(tab));
    FilterMultiset(events, TabIs(tab));
    var byQuery := if query == "" then byTab else Filter(byTab, MatchingQuery(query));
    FilterMultiset(byTab, MatchingQuery(query));
    if starredOnly && user.Some? then
      FilterMultiset(byQuery, StarredByUser(user.value.id));
      Filter(byQuery, StarredByUser(user.value.id))
    else byQuery
  }

  /** filteredEvents: the filter chain, then the filtered array sorted in
      place by the chosen comparator. */
  method FilteredEvents(events: seq<Event>, tab: Status, query: string, starredOnly: bool,
                        user: Option<User>, key: SortKey)
    returns (shown: seq<Event>)
    ensures forall e :: e in shown ==> e in events && e.status == tab
    ensures query != "" ==> forall e :: e in shown ==> MatchesQuery(e, query)
    ensures starredOnly && user.Some? ==> forall e :: e in shown ==> user.value.id in e.starredBy
    ensures forall e :: multiset(shown)[e] == if Shown(e, tab, query, starredOnly, user) then multiset(events)[e] else 0
    ensures Sorted(shown, key)
  {
    var filtered := Filtered(events, tab, query, starredOnly, user);
    shown := SortArrayOf(filtered, key);
    ShownMembers(shown, events, tab, query, starredOnly, user);
  }

  /** What is shown with the multiplicity the filters give is shown because
      it passes them. */
  lemma {:induction false} ShownMembers(shown: seq<Event>, events: seq<Event>, tab: Status, query: string,
                                        starredOnly: bool, user: Option<User>)
    requires forall e :: multiset(shown)[e] == if Shown(e, tab, query, starredOnly, user) then multiset(events)[e] else 0
    ensures forall e :: e in shown ==> e in events && Shown(e, tab, query, starredOnly, user)
  {
    forall e | e in shown
      ensures e in events && Shown(e, tab, query, starredOnly, user)
    {
      assert multiset(shown)[e] > 0;
    }
  }

  /** With an empty query and starred-only off, the tab is the only filter. */
  lemma {:induction false} UnfilteredTab(events: seq<Event>, tab: Status, user: Option<User>, e: Event)
    ensures Shown(e, tab, "", false, user) <==> e.status == tab
  {
  }

  /** The register button is rendered: on the upcoming tab, for a student. */
  predicate CanRegister(tab: Status, user: Option<User>)
  {
    tab == Upcoming && user.Some? && user.value.role == Student
  }

  /** The rendered event lists the signed-in user among its participants. */
  predicate ListsUser(e: Event, user: Option<User>)
  {
    user.Some? && user.value.id in e.participants
  }

  /** The button is disabled: not registered, and the stored counter has
      reached the capacity. */
  predicate RegisterDisabled(e: Event, user: Option<User>)
  {
    !ListsUser(e, user) && e.registered >= e.capacity
  }

  /** handleRegistration's test: the first page event with the id lists the user. */
  predicate IsRegistered(events: seq<Event>, eventId: EventId, userId: UserId)
  {
    var k := EventIndex(events, eventId);
    k != -1 && userId in events[k].participants
  }

  predicate DistinctIds(es: seq<Event>)
  {
    forall i, j :: 0 <= i < j < |es| ==> es[i].id != es[j].id
  }

  /** In a list without repeated ids, the first event with an event's id is
      that event. */
  lemma {:induction false} FirstWithOwnId(es: seq<Event>, e: Event)
    requires DistinctIds(es) && e in es
    ensures EventIndex(es, e.id) != -1 && es[EventIndex(es, e.id)] == e
  {
    var i :| 0 <= i < |es| && es[i] == e;
    assert EventIndex(es, e.id) != -1;
  }

  /** A click on an enabled button registers only when the event still has
      room by its stored counter; otherwise it cancels. */
  lemma {:induction false} EnabledButtonHasRoom(events: seq<Event>, e: Event, user: Option<User>)
    requires DistinctIds(events) && e in events
    requires user.Some? && !RegisterDisabled(e, user)
    ensures !IsRegistered(events, e.id, user.value.id) ==> e.registered < e.capacity
  {
    FirstWithOwnId(events, e);
  }

  /** handleStarToggle: nothing without a signed-in user, otherwise
      toggleStarEvent. */
  method HandleStarToggle(store: Ledger, eventId: EventId, user: Option<User>)
    requires store.Valid()
    modifies store
    ensures store.Valid()
    ensures user.None? ==> unchanged(store)
    ensures user.Some? ==> store.events == ToggleStar(old(store.events), eventId, user.value.id)
    ensures store.users == old(store.users) && store.currentUserId == old(store.currentUserId)
    ensures store.usersStored == old(store.usersStored) && store.eventsStored == old(store.eventsStored)
  {
    if user.None? {
      return;
    }
    var _ := store.ToggleStarEvent(eventId, user.value.id);
  }

  /** handleRegistration: nothing without a signed-in user; unregister when
      the page's event lists the user, register otherwise (also when the page
      has no event with that id).  Reports whether registering threw. */
  method HandleRegistration(store: Ledger, events: seq<Event>, eventId: EventId, user: Option<User>)
    returns (thrown: bool)
    requires store.Valid()
    modifies store
    ensures store.Valid()
    ensures user.None? ==> unchanged(store) && !thrown
    ensures user.Some? && IsRegistered(events, eventId, user.value.id) ==>
      store.events == Unregister(old(store.events), eventId, user.value.id) &&
      store.users == old(store.users) && !thrown
    ensures user.Some? && !IsRegistered(events, eventId, user.value.id) ==>
      var r := Register(old(store.users), old(store.events), eventId, user.value.id);
      store.users == r.users && store.events == r.events && thrown == r.thrown
    ensures store.currentUserId == old(store.currentUserId)
    ensures store.usersStored == old(store.usersStored) && store.eventsStored == old(store.eventsStored)
  {
    thrown := false;
    if user.None? {
      return;
    }
    var k := EventIndex(events, eventId);
    if k != -1 && user.value.id in events[k].participants {
      var _ := store.UnregisterFromEvent(eventId, user.value.id);
    } else {
      var _, _, t := store.RegisterForEvent(eventId, user.value.id);
      thrown := t;
    }
  }

  /** The page offers registration only for events whose DERIVED status is
      upcoming, so the crediting branch of registerForEvent can run from
      this page only when the STORED status says completed although the date
      lies after today. */
  lemma {:induction false} CreditOnlyWhenStatusStale(us: seq<User>, es: seq<Event>, today: string,
                                                     e: Event, userId: UserId)
    requires DistinctIds(es)
    requires e in WithDerivedStatus(es, today) && e.status == Upcoming
    ensures var r := Register(us, es, e.id, userId); var k := EventIndex(es, e.id);
      r.users != us ==>
        k != -1 && es[k].status == Completed && LexLess(today, es[k].date) &&
        es[k].status != DerivedStatus(es[k].date, today)
  {
    var r := Register(us, es, e.id, userId);
    RegisterUsers(us, es, e.id, userId);
    if r.users != us {
      var k := EventIndex(es, e.id);
      var page := WithDerivedStatus(es, today);
      var i :| 0 <= i < |page| && page[i] == e;
      assert es[i].id == e.id;
      assert k == i;
    }
  }

  /** The register button is rendered only on the upcoming tab for a
      student, so every event it is rendered on is shown as upcoming, and a
      click that registers credits tokens only under a stale stored status. */
  lemma {:induction false} RegisterButtonOnlyUpcoming(us: seq<User>, es: seq<Event>, today: string, tab: Status,
                                                      query: string, starredOnly: bool, user: Option<User>, e: Event)
    requires DistinctIds(es)
    requires CanRegister(tab, user)
    requires e in Filtered(WithDerivedStatus(es, today), tab, query, starredOnly, user)
    ensures e.status == Upcoming && user.value.role == Student
    ensures var r := Register(us, es, e.id, user.value.id); var k := EventIndex(es, e.id);
      r.users != us ==> k != -1 && es[k].status == Completed && LexLess(today, es[k].date)
  {
    var page := WithDerivedStatus(es, today);
    assert multiset(Filtered(page, tab, query, starredOnly, user))[e] > 0;
    CreditOnlyWhenStatusStale(us, es, today, e, user.value.id);
  }
}
