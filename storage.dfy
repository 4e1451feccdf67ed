/** The browser-local store and its operations.  Each operation loads the
    whole collection it needs, finds the record by id, changes that record,
    and writes the whole collection back; the `LedgerSpec` functions state
    the resulting collections. */
module Storage {
  import opened Types
  import opened Seqs
  import opened LedgerSpec
  import Seed

  class Ledger {
    /** The collections under the users and events keys. */
    var users: seq<User>
    var events: seq<Event>
    /** Whether each key has been written (initializeData seeds absent keys only). */
    var usersStored: bool
    var eventsStored: bool
    /** The session pointer under the current-user key. */
    var currentUserId: Option<UserId>

    /** An absent key reads as an empty collection. */
    ghost predicate Valid()
      reads this
    {
      (!usersStored ==> users == []) && (!eventsStored ==> events == [])
    }

    /** A store in which nothing has been written yet. */
    constructor ()
      ensures Valid()
      ensures users == [] && events == [] && !usersStored && !eventsStored
      ensures currentUserId == None
    {
      users, events := [], [];
      usersStored, eventsStored := false, false;
      currentUserId := None;
    }

    /** initializeData: write the sample records under each key that is absent. */
    method InitializeData()
      requires Valid()
      modifies this
      ensures Valid() && usersStored && eventsStored
      ensures users == if old(usersStored) then old(users) else Seed.SampleUsers
      ensures events == if old(eventsStored) then old(events) else Seed.SampleEvents
      ensures currentUserId == old(currentUserId)
    {
      if !usersStored {
        users, usersStored := Seed.SampleUsers, true;
      }
      if !eventsStored {
        events, eventsStored := Seed.SampleEvents, true;
      }
    }

    /** getCurrentUser: resolve the session pointer against the stored users. */
    method GetCurrentUser() returns (user: Option<User>)
      ensures user == CurrentUser(users, currentUserId)
      ensures user.Some? ==> user.value in users && Some(user.value.id) == currentUserId
    {
      if currentUserId.None? || currentUserId.value == "" {
        return None;
      }
      var us := users;
      var j := UserIndex(us, currentUserId.value);
      if j == -1 {
        user := None;
      } else {
        user := Some(us[j]);
      }
    }

    /** signInMock: find the user by email or create one, then point the
        session at it.  `now` stands for Date.now() and `roll` for the
        roll-number draw Math.floor(Math.random() * 999). */
    method SignInMock(email: string, role: Role, now: nat, roll: nat) returns (user: User)
      requires Valid()
      requires roll < 999
      modifies this
      ensures Valid()
      ensures users == SignIn(old(users), email, role, now, roll).users
      ensures user == SignIn(old(users), email, role, now, roll).user
      ensures currentUserId == Some(user.id)
      ensures usersStored == (old(usersStored) || EmailIndex(old(users), email) == -1)
      ensures events == old(events) && eventsStored == old(eventsStored)
    {
      var us := users;
      var j := EmailIndex(us, email);
      if j == -1 {
        user := NewUser(email, role, now, roll);
        us := us + [user];
        users, usersStored := us, true;
      } else {
        user := us[j];
      }
      currentUserId := Some(user.id);
    }

    /** signOut: drop the session pointer. */
    method SignOut()
      requires Valid()
      modifies this
      ensures Valid()
      ensures currentUserId == None
      ensures users == old(users) && events == old(events)
      ensures usersStored == old(usersStored) && eventsStored == old(eventsStored)
    {
      currentUserId := None;
    }

    /** toggleStarEvent; returns the changed event, or none for an unknown id. */
    method ToggleStarEvent(eventId: EventId, userId: UserId) returns (event: Option<Event>)
      requires Valid()
      modifies this
      ensures Valid()
      ensures events == ToggleStar(old(events), eventId, userId)
      ensures event == if EventIndex(old(events), eventId) == -1 then None
                       else Some(events[EventIndex(old(events), eventId)])
      ensures users == old(users) && currentUserId == old(currentUserId)
      ensures usersStored == old(usersStored) && eventsStored == old(eventsStored)
    {
      var es := events;
      var k := EventIndex(es, eventId);
      if k == -1 {
        return None;
      }
      var e := es[k];
      var i := IndexOf(e.starredBy, userId);
      if i > -1 {
        e := e.(starredBy := RemoveAt(e.starredBy, i));
      } else {
        e := e.(starredBy := e.starredBy + [userId]);
      }
      es := es[k := e];
      events := es;
      event := Some(e);
    }

    /** registerForEvent; returns the event and the user it found.  When the
        crediting step throws, the events have already been written. */
    method RegisterForEvent(eventId: EventId, userId: UserId)
      returns (event: Option<Event>, user: Option<User>, thrown: bool)
      requires Valid()
      modifies this
      ensures Valid()
      ensures var r := Register(old(users), old(events), eventId, userId);
        users == r.users && events == r.events && thrown == r.thrown
      ensures !thrown ==>
        event == (if EventIndex(old(events), eventId) == -1 then None
                  else Some(events[EventIndex(old(events), eventId)])) &&
        user == (if UserIndex(old(users), userId) == -1 then None
                 else Some(users[UserIndex(old(users), userId)]))
      ensures currentUserId == old(currentUserId)
      ensures usersStored == old(usersStored) && eventsStored == old(eventsStored)
    {
      var es := events;
      var us := users;
      var k := EventIndex(es, eventId);
      var j := UserIndex(us, userId);
      event := if k == -1 then None else Some(es[k]);
      user := if j == -1 then None else Some(us[j]);
      thrown := false;
      if k != -1 && j != -1 && userId !in es[k].participants {
        var e := es[k];
        e := e.(participants := e.participants + [userId]);
        e := e.(registered := |e.participants|);
        es := es[k := e];
        events := es;
        event := Some(e);
        if e.status == Completed {
          var u := us[j];
          if u.participatedEvents.None? {
            thrown := true;
            event, user := None, None;
            return;
          }
          if eventId !in u.participatedEvents.value {
            u := u.(participatedEvents := Some(u.participatedEvents.value + [eventId]));
            u := u.(tokens := u.tokens + e.tokens);
            us := us[j := u];
            users := us;
            user := Some(u);
          }
        }
      }
    }

    /** unregisterFromEvent; returns the event it found. */
    method UnregisterFromEvent(eventId: EventId, userId: UserId) returns (event: Option<Event>)
      requires Valid()
      modifies this
      ensures Valid()
      ensures events == Unregister(old(events), eventId, userId)
      ensures event == if EventIndex(old(events), eventId) == -1 then None
                       else Some(events[EventIndex(old(events), eventId)])
      ensures users == old(users) && currentUserId == old(currentUserId)
      ensures usersStored == old(usersStored) && eventsStored == old(eventsStored)
    {
      var es := events;
      var k := EventIndex(es, eventId);
      if k == -1 {
        return None;
      }
      var e := es[k];
      var i := IndexOf(e.participants, userId);
      UnregisterFound(es, eventId, userId, k, i);
      if i > -1 {
        e := e.(participants := RemoveAt(e.participants, i));
        e := e.(registered := |e.participants|);
        es := es[k := e];
        events := es;
      }
      event := Some(e);
    }

    /** createEvent: append one event built from the form data; `now` stands
        for Date.now() in the generated id. */
    method CreateEvent(data: EventData, clubId: ClubId, now: nat) returns (e: Event)
      requires Valid()
      modifies this
      ensures Valid() && eventsStored
      ensures events == old(events) + [e]
      ensures e.id == StampedId("evt_", now) && e.clubId == clubId
      ensures e.starredBy == [] && e.participants == [] && e.registered == 0 && e.status == Upcoming
      ensures e.name == data.name && e.description == data.description && e.venue == data.venue
      ensures e.date == data.date && e.startTime == data.startTime && e.endTime == data.endTime
      ensures e.capacity == data.capacity && e.tokens == data.tokens
      ensures e.club == data.club && e.clubLogo == data.clubLogo
      ensures users == old(users) && usersStored == old(usersStored) && currentUserId == old(currentUserId)
    {
      e := NewEvent(StampedId("evt_", now), data, clubId);
      var es := events;
      es := es + [e];
      events, eventsStored := es, true;
    }

    /** updateEventStatus: overwrite the matching event's status. */
    method UpdateEventStatus(eventId: EventId, status: Status) returns (event: Option<Event>)
      requires Valid()
      modifies this
      ensures Valid()
      ensures events == UpdateStatus(old(events), eventId, status)
      ensures event == if EventIndex(old(events), eventId) == -1 then None
                       else Some(events[EventIndex(old(events), eventId)])
      ensures users == old(users) && currentUserId == old(currentUserId)
      ensures usersStored == old(usersStored) && eventsStored == old(eventsStored)
    {
      var es := events;
      var k := EventIndex(es, eventId);
      if k == -1 {
        return None;
      }
      var e := es[k].(status := status);
      es := es[k := e];
      events := es;
      event := Some(e);
    }

    /** issueTokensToParticipants: credit the listed users one by one, then
        write the users and mark the event completed.  A step that throws
        leaves the store as it was. */
    method IssueTokensToParticipants(eventId: EventId, participantIds: seq<UserId>)
      returns (event: Option<Event>, thrown: bool)
      requires Valid()
      modifies this
      ensures Valid()
      ensures var r := IssueTokens(old(users), old(events), eventId, participantIds);
        users == r.users && events == r.events && thrown == r.thrown
      ensures event == if thrown || EventIndex(old(events), eventId) == -1 then None
                       else Some(events[EventIndex(old(events), eventId)])
      ensures usersStored == (old(usersStored) || (EventIndex(old(events), eventId) != -1 && !thrown))
      ensures eventsStored == old(eventsStored) && currentUserId == old(currentUserId)
    {
      var us := users;
      var es := events;
      var k := EventIndex(es, eventId);
      if k == -1 {
        return None, false;
      }
      var amount := es[k].tokens;
      ghost var start := us;
      var i := 0;
      while i < |participantIds|
        invariant 0 <= i <= |participantIds|
        invariant CreditAll(start, eventId, amount, participantIds[..i]) == Credits(us, false)
        invariant unchanged(this)
      {
        var userId := participantIds[i];
        assert CreditAll(start, eventId, amount, participantIds[..i + 1]) == CreditStep(us, eventId, amount, userId) by {
          assert participantIds[..i + 1][..i] == participantIds[..i];
        }
        var failed;
        us, failed := CreditParticipant(us, eventId, amount, userId);
        if failed {
          assert IssueTokens(start, es, eventId, participantIds) == Outcome(start, es, true) by {
            CreditAllThrownPersists(start, eventId, amount, participantIds, i + 1);
          }
          return None, true;
        }
        i := i + 1;
      }
      var e := es[k].(status := Completed);
      assert IssueTokens(start, es, eventId, participantIds) == Outcome(us, es[k := e], false) by {
        assert participantIds[..i] == participantIds;
      }
      users, usersStored := us, true;
      es := es[k := e];
      events := es;
      event, thrown := Some(e), false;
    }
  }

  /** The forEach callback of issueTokensToParticipants: find the user and,
      unless already credited, record the event and add its tokens.  Reports
      whether `.includes` threw on a record without a participation list. */
  method CreditParticipant(us: seq<User>, eventId: EventId, amount: nat, userId: UserId)
    returns (us': seq<User>, thrown: bool)
    ensures Credits(us', thrown) == CreditStep(us, eventId, amount, userId)
    ensures !thrown ==> |us'| == |us| && forall i :: 0 <= i < |us| ==> us'[i].tokens >= us[i].tokens
  {
    us', thrown := us, false;
    var j := UserIndex(us, userId);
    if j != -1 {
      var u := us[j];
      if u.participatedEvents.None? {
        return us, true;
      }
      if eventId !in u.participatedEvents.value {
        u := u.(participatedEvents := Some(u.participatedEvents.value + [eventId]));
        u := u.(tokens := u.tokens + amount);
        us' := us[j := u];
      }
    }
  }

  /** Once a step of the forEach has thrown, the rest of the list does not run. */
  lemma {:induction false} CreditAllThrownPersists(us: seq<User>, eventId: EventId, amount: nat,
                                                   ids: seq<UserId>, n: nat)
    requires n <= |ids|
    requires CreditAll(us, eventId, amount, ids[..n]).thrown
    ensures CreditAll(us, eventId, amount, ids).thrown
    decreases |ids| - n
  {
    if n < |ids| {
      assert ids[..n + 1][..n] == ids[..n];
      CreditAllThrownPersists(us, eventId, amount, ids, n + 1);
    } else {
      assert ids[..n] == ids;
    }
  }
}
