/** The club Dashboard: the club's events (by STORED status, which this page
    does not recompute), the statistics over them, and the issue-tokens
    dialog with its participant selection. */
module ClubDashboard {
  import opened Types
  import opened Seqs
  import opened Sorting
  import opened LedgerSpec
  import opened Storage

  function OfClub(clubId: Option<ClubId>): Event -> bool
  {
    (e: Event) => Some(e.clubId) == clubId
  }

  function StatusIs(s: Status): Event -> bool
  {
    (e: Event) => e.status == s
  }

  /** loadClubEvents: the events of the user's club, sorted in place newest
      first.  A user without a club matches no event. */
  method LoadClubEvents(events: seq<Event>, clubId: Option<ClubId>) returns (mine: seq<Event>)
    ensures forall e :: e in mine <==> e in events && Some(e.clubId) == clubId
    ensures forall e :: multiset(mine)[e] == if Some(e.clubId) == clubId then multiset(events)[e] else 0
    ensures Sorted(mine, ByDateNewestFirst)
  {
    var filtered := Filter(events, OfClub(clubId));
    FilterMultiset(events, OfClub(clubId));
    mine := SortArrayOf(filtered, ByDateNewestFirst);
    assert forall e :: e in mine <==> e in multiset(mine);
  }

  /** The upcoming and completed counts never add up to more than the
      number of club events. */
  lemma {:induction false} StatusCountsBounded(mine: seq<Event>)
    ensures Count(mine, StatusIs(Upcoming)) + Count(mine, StatusIs(Completed)) <= |mine|
  {
    CountDisjoint(mine, StatusIs(Upcoming), StatusIs(Completed));
  }

  /** reduce((sum, e) => sum + f(e), 0): a sum from the left. */
  function Sum(es: seq<Event>, f: Event -> nat): nat
    decreases |es|
  {
    if |es| == 0 then 0 else Sum(es[..|es| - 1], f) + f(es[|es| - 1])
  }

  lemma {:induction false} SumAppend(a: seq<Event>, b: seq<Event>, f: Event -> nat)
    ensures Sum(a + b, f) == Sum(a, f) + Sum(b, f)
    decreases |b|
  {
    if |b| == 0 {
      assert a + b == a;
    } else {
      assert (a + b)[..|a + b| - 1] == a + b[..|b| - 1];
      SumAppend(a, b[..|b| - 1], f);
    }
  }

  lemma SumSingleton(x: Event, f: Event -> nat)
    ensures Sum([x], f) == f(x)
  {
    assert [x][..0] == [];
  }

  /** Taking one event out of a sum. */
  lemma {:induction false} SumRemoveAt(b: seq<Event>, i: nat, f: Event -> nat)
    requires i < |b|
    ensures Sum(b, f) == Sum(RemoveAt(b, i), f) + f(b[i])
  {
    var lo, hi := b[..i], b[i + 1..];
    assert b == (lo + [b[i]]) + hi;
    assert RemoveAt(b, i) == lo + hi;
    SumInsert(lo, b[i], hi, f);
  }

  /** Adding one event to a sum, anywhere. */
  lemma {:induction false} SumInsert(lo: seq<Event>, x: Event, hi: seq<Event>, f: Event -> nat)
    ensures Sum((lo + [x]) + hi, f) == Sum(lo + hi, f) + f(x)
  {
    SumAppend(lo + [x], hi, f);
    SumAppend(lo, [x], f);
    SumAppend(lo, hi, f);
    SumSingleton(x, f);
  }

  /** A sum does not depend on the order of the events. */
  lemma {:induction false} SumPermutation(a: seq<Event>, b: seq<Event>, f: Event -> nat)
    requires multiset(a) == multiset(b)
    ensures Sum(a, f) == Sum(b, f)
    decreases |a|
  {
    if |a| == 0 {
      assert |b| == |multiset(b)|;
    } else {
      var x := a[|a| - 1];
      var a' := a[..|a| - 1];
      assert a == a' + [x];
      assert multiset(a) == multiset(a') + multiset{x};
      assert x in multiset(b);
      var i :| 0 <= i < |b| && b[i] == x;
      SumRemoveAt(b, i, f);
      SumPermutation(a', RemoveAt(b, i), f);
    }
  }

  function ParticipantCount(e: Event): nat { |e.participants| }

  /** What the page reports for a completed event: every participant times
      the event's tokens, credited or not. */
  function TokensPaid(e: Event): nat { |e.participants| * e.tokens }

  function TotalParticipants(mine: seq<Event>): nat
  {
    Sum(mine, ParticipantCount)
  }

  function TotalTokensIssued(mine: seq<Event>): nat
  {
    Sum(Filter(mine, StatusIs(Completed)), TokensPaid)
  }

  /** Both totals are those of the club's events in store order: sorting does
      not change them. */
  lemma {:induction false} TotalsOfClub(events: seq<Event>, clubId: Option<ClubId>, mine: seq<Event>)
    requires forall e :: multiset(mine)[e] == if Some(e.clubId) == clubId then multiset(events)[e] else 0
    ensures TotalParticipants(mine) == TotalParticipants(Filter(events, OfClub(clubId)))
    ensures TotalTokensIssued(mine) == TotalTokensIssued(Filter(events, OfClub(clubId)))
  {
    var f := Filter(events, OfClub(clubId));
    FilterMultiset(events, OfClub(clubId));
    assert multiset(mine) == multiset(f);
    SumPermutation(mine, f, ParticipantCount);
    var c := StatusIs(Completed);
    assert multiset(Filter(mine, c)) == multiset(Filter(f, c)) by {
      SameFilterMultiset(mine, f, c);
    }
    SumPermutation(Filter(mine, c), Filter(f, c), TokensPaid);
  }

  lemma {:induction false} SameFilterMultiset(a: seq<Event>, b: seq<Event>, c: Event -> bool)
    requires multiset(a) == multiset(b)
    ensures multiset(Filter(a, c)) == multiset(Filter(b, c))
  {
    FilterMultiset(a, c);
    FilterMultiset(b, c);
    assert forall x :: multiset(Filter(a, c))[x] == multiset(Filter(b, c))[x];
  }

  lemma {:induction false} FilterAroundStatus(es: seq<Event>, k: nat, s: Status)
    requires k < |es|
    ensures var lo, hi := Filter(es[..k], StatusIs(s)), Filter(es[k + 1..], StatusIs(s));
      Filter(es, StatusIs(s)) == if es[k].status == s then (lo + [es[k]]) + hi else lo + hi
  {
    FilterAround(es, k, StatusIs(s));
  }

  /** Marking one event completed raises the tokens-issued figure by all its
      participants times its tokens, before anyone is credited. */
  lemma {:induction false} CompletingRaisesTokensIssued(es: seq<Event>, k: nat)
    requires k < |es| && es[k].status != Completed
    ensures TotalTokensIssued(es[k := es[k].(status := Completed)]) ==
            TotalTokensIssued(es) + |es[k].participants| * es[k].tokens
  {
    var e := es[k].(status := Completed);
    var es' := es[k := e];
    var c := StatusIs(Completed);
    var lo, hi := Filter(es[..k], c), Filter(es[k + 1..], c);
    FilterAroundStatus(es, k, Completed);
    FilterAroundStatus(es', k, Completed);
    assert es'[..k] == es[..k] && es'[k + 1..] == es[k + 1..];
    SumInsert(lo, e, hi, TokensPaid);
    assert TokensPaid(e) == |es[k].participants| * es[k].tokens;
    assert TotalTokensIssued(es') == Sum(lo + hi, TokensPaid) + TokensPaid(e);
    assert TotalTokensIssued(es) == Sum(lo + hi, TokensPaid);
  }

  /** Issuing tokens for an event that is not yet completed raises the
      figure by every participant times the tokens, however many users it
      actually credits; for an event already completed the figure stays. */
  lemma {:induction false} IssueTokensFigure(us: seq<User>, es: seq<Event>, eventId: EventId, ids: seq<UserId>)
    ensures var r := IssueTokens(us, es, eventId, ids); var k := EventIndex(es, eventId);
      !r.thrown && k != -1 ==>
        TotalTokensIssued(r.events) ==
        TotalTokensIssued(es) + (if es[k].status == Completed then 0 else |es[k].participants| * es[k].tokens)
  {
    var r := IssueTokens(us, es, eventId, ids);
    var k := EventIndex(es, eventId);
    if !r.thrown && k != -1 {
      assert r.events == es[k := es[k].(status := Completed)];
      if es[k].status != Completed {
        CompletingRaisesTokensIssued(es, k);
      } else {
        assert r.events == es;
      }
    }
  }

  /** The Issue Tokens button: a completed event with at least one participant. */
  predicate IssueTokensOffered(e: Event)
  {
    e.status == Completed && |e.participants| > 0
  }

  /** The ids of the users, in user-store order. */
  function UserIds(users: seq<User>): (r: seq<UserId>)
    ensures |r| == |users|
    ensures forall i :: 0 <= i < |users| ==> r[i] == users[i].id
  {
    if |users| == 0 then [] else [users[0].id] + UserIds(users[1..])
  }

  /** The user is listed among the event's participants. */
  function ListedIn(e: Event): User -> bool
  {
    (u: User) => u.id in e.participants
  }

  /** Select All: the ids of the users, in user-store order, that the event
      lists as participants; one id per matching user record. */
  function ParticipantIds(users: seq<User>, e: Event): (r: seq<UserId>)
    ensures |r| <= |users|
    ensures forall id :: multiset(r)[id] == if id in e.participants then multiset(UserIds(users))[id] else 0
    ensures forall id :: id in r <==> id in e.participants && id in UserIds(users)
  {
    if |users| == 0 then []
    else
      var rest := ParticipantIds(users[1..], e);
      var head := if users[0].id in e.participants then [users[0].id] else [];
      assert UserIds(users) == [users[0].id] + UserIds(users[1..]);
      var r := head + rest;
      assert forall id :: id in r <==> id in multiset(r);
      assert forall id :: id in UserIds(users) <==> id in multiset(UserIds(users));
      r
  }

  /** Select All is the users filtered by participation, then mapped to
      their ids: the order is that of the user store. */
  lemma {:induction false} ParticipantIdsInOrder(users: seq<User>, e: Event)
    ensures ParticipantIds(users, e) == UserIds(Filter(users, ListedIn(e)))
  {
    if |users| > 0 {
      ParticipantIdsInOrder(users[1..], e);
      var head := if users[0].id in e.participants then [users[0]] else [];
      assert Filter(users, ListedIn(e)) == head + Filter(users[1..], ListedIn(e));
      UserIdsAppend(head, Filter(users[1..], ListedIn(e)));
    }
  }

  lemma UserIdsAppend(a: seq<User>, b: seq<User>)
    ensures UserIds(a + b) == UserIds(a) + UserIds(b)
  {
    assert forall i :: 0 <= i < |a + b| ==> UserIds(a + b)[i] == (UserIds(a) + UserIds(b))[i];
  }

  /** Issuing to a Select All selection credits only participants of the
      event, although the store itself does not check participation. */
  lemma {:induction false} SelectAllCreditsParticipantsOnly(us: seq<User>, es: seq<Event>, eventId: EventId, k: nat)
    requires k < |es| && k == EventIndex(es, eventId)
    ensures var r := IssueTokens(us, es, eventId, ParticipantIds(us, es[k]));
      forall i :: 0 <= i < |us| && i < |r.users| && r.users[i].tokens > us[i].tokens ==> us[i].id in es[k].participants
  {
    var ids := ParticipantIds(us, es[k]);
    IssueTokensEffect(us, es, eventId, ids);
  }

  /** The issue-tokens dialog's state: the event whose button was clicked
      and the participants checked so far. */
  class IssueDialog {
    var selectedEvent: Option<Event>
    var selectedParticipants: seq<UserId>
    var open: bool

    /** The dialog is only open on a selected event, and an event is only
        selected through its Issue Tokens button, which is offered for
        completed events with participants. */
    ghost predicate Valid()
      reads this
    {
      (open ==> selectedEvent.Some?) &&
      (selectedEvent.Some? ==> IssueTokensOffered(selectedEvent.value))
    }

    constructor ()
      ensures Valid()
      ensures selectedEvent == None && selectedParticipants == [] && !open
    {
      selectedEvent, selectedParticipants, open := None, [], false;
    }

    /** The Issue Tokens button, rendered only for an event it is offered
        for: select the event and open the dialog. */
    method OpenFor(e: Event)
      requires Valid() && IssueTokensOffered(e)
      modifies this
      ensures Valid()
      ensures selectedEvent == Some(e) && open
      ensures selectedParticipants == old(selectedParticipants)
    {
      selectedEvent, open := Some(e), true;
    }

    /** Dismissing the dialog (onOpenChange(false)) closes it and keeps the
        selected event and the selection. */
    method Close()
      requires Valid()
      modifies this
      ensures Valid()
      ensures !open
      ensures selectedEvent == old(selectedEvent) && selectedParticipants == old(selectedParticipants)
    {
      open := false;
    }

    /** Checking a box appends the id, even if it is already there. */
    method Check(userId: UserId)
      requires Valid()
      modifies this
      ensures Valid()
      ensures selectedParticipants == old(selectedParticipants) + [userId]
      ensures selectedEvent == old(selectedEvent) && open == old(open)
    {
      selectedParticipants := selectedParticipants + [userId];
    }

    /** Unchecking a box removes every occurrence of the id. */
    method Uncheck(userId: UserId)
      requires Valid()
      modifies this
      ensures Valid()
      ensures selectedParticipants == Without(old(selectedParticipants), userId)
      ensures userId !in selectedParticipants
      ensures selectedEvent == old(selectedEvent) && open == old(open)
    {
      selectedParticipants := Without(selectedParticipants, userId);
    }

    /** Select All replaces the selection with the participants, among the
        stored users, of the event whose dialog holds the button. */
    method SelectAll(users: seq<User>, e: Event)
      requires Valid()
      modifies this
      ensures Valid()
      ensures selectedParticipants == ParticipantIds(users, e)
      ensures selectedEvent == old(selectedEvent) && open == old(open)
    {
      selectedParticipants := ParticipantIds(users, e);
    }

    /** handleIssueTokens: without a selected event or with an empty
        selection nothing is called; otherwise issueTokensToParticipants
        runs and, unless it throws, the dialog is closed and cleared. */
    method HandleIssueTokens(store: Ledger) returns (called: bool, thrown: bool)
      requires Valid() && store.Valid()
      modifies this, store
      ensures Valid() && store.Valid()
      ensures called == (old(selectedEvent).Some? && |old(selectedParticipants)| > 0)
      ensures called ==> IssueTokensOffered(old(selectedEvent).value)
      ensures !called ==> unchanged(store) && unchanged(this) && !thrown
      ensures called ==>
        var r := IssueTokens(old(store.users), old(store.events), old(selectedEvent).value.id, old(selectedParticipants));
        store.users == r.users && store.events == r.events && thrown == r.thrown
      ensures called && !thrown ==> selectedEvent == None && selectedParticipants == [] && !open
      ensures called && thrown ==> unchanged(this)
      ensures called ==> store.usersStored == (old(store.usersStored) ||
                                               (EventIndex(old(store.events), old(selectedEvent).value.id) != -1 && !thrown))
      ensures store.eventsStored == old(store.eventsStored) && store.currentUserId == old(store.currentUserId)
    {
      called, thrown := false, false;
      if selectedEvent.None? || |selectedParticipants| == 0 {
        return;
      }
      called := true;
      var _, t := store.IssueTokensToParticipants(selectedEvent.value.id, selectedParticipants);
      thrown := t;
      if thrown {
        return;
      }
      open, selectedParticipants, selectedEvent := false, [], None;
    }
  }
}
