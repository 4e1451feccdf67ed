/** The ledger's operations as functions from the loaded collections to the
    collections written back.  The `Storage.Ledger` class performs the same
    steps on its fields; the lemmas here state what the operations promise. */
module LedgerSpec {
  import opened Types
  import opened Seqs
  import Seed

  // ---------------------------------------------------------------------
  // Lookups (Array.prototype.find over the loaded collections)

  /** Position of the first user with this id, or -1. */
  function UserIndex(us: seq<User>, id: UserId): (r: int)
    ensures -1 <= r < |us|
    ensures r == -1 <==> forall i :: 0 <= i < |us| ==> us[i].id != id
    ensures 0 <= r ==> us[r].id == id && forall i :: 0 <= i < r ==> us[i].id != id
  {
    FindIndex(us, (u: User) => u.id == id)
  }

  /** Position of the first user with this email, or -1. */
  function EmailIndex(us: seq<User>, email: string): (r: int)
    ensures -1 <= r < |us|
    ensures r == -1 <==> forall i :: 0 <= i < |us| ==> us[i].email != email
    ensures 0 <= r ==> us[r].email == email && forall i :: 0 <= i < r ==> us[i].email != email
  {
    FindIndex(us, (u: User) => u.email == email)
  }

  /** Position of the first event with this id, or -1. */
  function EventIndex(es: seq<Event>, id: EventId): (r: int)
    ensures -1 <= r < |es|
    ensures r == -1 <==> forall i :: 0 <= i < |es| ==> es[i].id != id
    ensures 0 <= r ==> es[r].id == id && forall i :: 0 <= i < r ==> es[i].id != id
  {
    FindIndex(es, (e: Event) => e.id == id)
  }

  /** Two event collections with the same ids in the same places. */
  predicate SameEventIds(a: seq<Event>, b: seq<Event>)
  {
    |a| == |b| && forall i :: 0 <= i < |a| ==> a[i].id == b[i].id
  }

  lemma {:induction false} EventIndexSameIds(a: seq<Event>, b: seq<Event>, id: EventId)
    requires SameEventIds(a, b)
    ensures EventIndex(a, id) == EventIndex(b, id)
  {
  }

  /** Two user collections with the same ids in the same places, whose records
      agree on whether they have a participation list at all. */
  predicate Aligned(a: seq<User>, b: seq<User>)
  {
    |a| == |b| &&
    forall i :: 0 <= i < |a| ==>
      a[i].id == b[i].id && (a[i].participatedEvents.None? <==> b[i].participatedEvents.None?)
  }

  lemma {:induction false} UserIndexAligned(a: seq<User>, b: seq<User>, id: UserId)
    requires Aligned(a, b)
    ensures UserIndex(a, id) == UserIndex(b, id)
  {
  }

  // ---------------------------------------------------------------------
  // Session

  /** getCurrentUser: the first user whose id is the stored session pointer;
      none when the pointer is absent or empty, or names no user. */
  function CurrentUser(us: seq<User>, current: Option<UserId>): (r: Option<User>)
    ensures r.Some? <==> current.Some? && current.value != "" && exists i :: 0 <= i < |us| && us[i].id == current.value
    ensures r.Some? ==> r.value == us[UserIndex(us, current.value)] && r.value.id == current.value
  {
    if current.None? || current.value == "" then None
    else
      var j := UserIndex(us, current.value);
      if j == -1 then None else Some(us[j])
  }

  /** The id a record created at time `now` receives (`${prefix}${Date.now()}`). */
  function StampedId(prefix: string, now: nat): string
  {
    prefix + Decimal(now)
  }

  /** `CS21B` followed by the three-digit, zero-padded draw (Math.floor(Math.random() * 999)). */
  function RollNumber(roll: nat): (r: string)
    requires roll < 999
    ensures |r| == 8 && r[..5] == "CS21B"
    ensures forall k :: 5 <= k < 8 ==> IsDigit(r[k])
  {
    var d := PadStart(Decimal(roll), 3, '0');
    assert forall k :: 0 <= k < 3 ==> IsDigit(d[k]) by {
      forall k | 0 <= k < 3 ensures IsDigit(d[k]) {
        if k < 3 - |Decimal(roll)| {
        } else {
          assert d[k] == d[3 - |Decimal(roll)|..][k - (3 - |Decimal(roll)|)];
        }
      }
    }
    "CS21B" + d
  }

  /** The record signInMock creates for an unknown email. */
  function NewUser(email: string, role: Role, now: nat, roll: nat): User
    requires roll < 999
  {
    User(StampedId("user_", now), BeforeAt(email), email, role, Some(""),
         Some(if role == Student then RollNumber(roll) else ""), 0,
         Some([]), Some([]), if role == Club then Some("club_webops") else None)
  }

  datatype SignInResult = SignInResult(users: seq<User>, user: User)

  /** signInMock: the first user with this email, or a new one appended. */
  function SignIn(us: seq<User>, email: string, role: Role, now: nat, roll: nat): SignInResult
    requires roll < 999
  {
    var j := EmailIndex(us, email);
    if j == -1 then
      var u := NewUser(email, role, now, roll);
      SignInResult(us + [u], u)
    else SignInResult(us, us[j])
  }

  /** A known email signs in as its first record and changes nothing;
      the role argument plays no part. */
  lemma {:induction false} SignInExisting(us: seq<User>, email: string, role: Role, now: nat, roll: nat)
    requires roll < 999
    requires EmailIndex(us, email) != -1
    ensures SignIn(us, email, role, now, roll).users == us
    ensures SignIn(us, email, role, now, roll).user == us[EmailIndex(us, email)]
    ensures forall role' :: SignIn(us, email, role', now, roll) == SignIn(us, email, role, now, roll)
  {
  }

  /** An unknown email appends exactly one record with zero tokens, empty
      lists, the name before '@', a roll number for a student and the
      WebOps club for a club account. */
  lemma {:induction false} SignInNew(us: seq<User>, email: string, role: Role, now: nat, roll: nat)
    requires roll < 999
    requires forall i :: 0 <= i < |us| ==> us[i].email != email
    ensures var r := SignIn(us, email, role, now, roll);
      r.users == us + [r.user] &&
      r.user.email == email && r.user.role == role && r.user.name == BeforeAt(email) &&
      r.user.tokens == 0 && r.user.starredEvents == Some([]) && r.user.participatedEvents == Some([]) &&
      (r.user.clubId == Some("club_webops") <==> role == Club) &&
      (r.user.clubId.None? <==> role == Student) &&
      (role == Student ==> r.user.rollNumber.Some? && |r.user.rollNumber.value| == 8 &&
                           r.user.rollNumber.value[..5] == "CS21B")
  {
  }

  /** Signing in again with the same email finds the same record and adds none. */
  lemma {:induction false} SignInTwice(us: seq<User>, email: string, role: Role, role': Role,
                                       now: nat, now': nat, roll: nat, roll': nat)
    requires roll < 999 && roll' < 999
    ensures var r := SignIn(us, email, role, now, roll);
      SignIn(r.users, email, role', now', roll') == r
  {
    var r := SignIn(us, email, role, now, roll);
    if EmailIndex(us, email) == -1 {
      assert r.users[|us|] == r.user;
      assert EmailIndex(r.users, email) == |us|;
    }
  }

  /** After signing in, the session pointer resolves to the user signed in,
      provided that user's id names no earlier record (the generated id is
      not guaranteed fresh). */
  lemma {:induction false} SignInSetsCurrentUser(us: seq<User>, email: string, role: Role, now: nat, roll: nat)
    requires roll < 999
    requires EmailIndex(us, email) == -1 ==> UserIndex(us, StampedId("user_", now)) == -1
    requires EmailIndex(us, email) != -1 ==> UserIndex(us, us[EmailIndex(us, email)].id) == EmailIndex(us, email)
    requires EmailIndex(us, email) != -1 ==> us[EmailIndex(us, email)].id != ""
    ensures var r := SignIn(us, email, role, now, roll);
      CurrentUser(r.users, Some(r.user.id)) == Some(r.user)
  {
    var r := SignIn(us, email, role, now, roll);
    if EmailIndex(us, email) == -1 {
      assert r.users[|us|] == r.user;
      assert r.user.id[..5] == "user_";
      assert UserIndex(r.users, r.user.id) == |us|;
    }
  }

  // ---------------------------------------------------------------------
  // Starring

  /** The starredBy list after toggleStarEvent: the first occurrence of u
      spliced out when present, u pushed otherwise. */
  function Toggle(s: seq<UserId>, u: UserId): seq<UserId>
  {
    var i := IndexOf(s, u);
    if i > -1 then RemoveAt(s, i) else s + [u]
  }

  /** toggleStarEvent on the event collection; an unknown event id changes nothing. */
  function ToggleStar(es: seq<Event>, eventId: EventId, userId: UserId): seq<Event>
  {
    var k := EventIndex(es, eventId);
    if k == -1 then es else es[k := es[k].(starredBy := Toggle(es[k].starredBy, userId))]
  }

  /** On the starredBy list itself: toggling keeps every other id with its
      multiplicity, appends the user when absent, removes one occurrence when
      present, and so flips membership when the user is listed at most once. */
  lemma {:induction false} ToggleCounts(s: seq<UserId>, u: UserId)
    ensures forall v :: v != u ==> multiset(Toggle(s, u))[v] == multiset(s)[v]
    ensures u !in s ==> Toggle(s, u) == s + [u]
    ensures u in s ==> multiset(Toggle(s, u))[u] == multiset(s)[u] - 1
    ensures multiset(s)[u] <= 1 ==> (u in Toggle(s, u) <==> u !in s)
  {
    var i := IndexOf(s, u);
    if i > -1 {
      assert multiset(Toggle(s, u)) == multiset(s) - multiset{u};
    } else {
      assert multiset(s + [u]) == multiset(s) + multiset{u};
    }
  }

  /** Toggling flips whether the user is a starrer (when the user is listed at
      most once), keeps every other starrer with its multiplicity, touches no
      other field and no other event, and ignores an unknown event. */
  lemma {:induction false} ToggleStarEffect(es: seq<Event>, eventId: EventId, userId: UserId)
    ensures var r := ToggleStar(es, eventId, userId); var k := EventIndex(es, eventId);
      SameEventIds(es, r) &&
      (k == -1 ==> r == es) &&
      (k != -1 ==>
        (forall i :: 0 <= i < |es| && i != k ==> r[i] == es[i]) &&
        r[k].(starredBy := es[k].starredBy) == es[k] &&
        r[k].starredBy == Toggle(es[k].starredBy, userId))
  {
  }

  /** Two equal elements at different positions count twice. */
  lemma {:induction false} TwoOccurrences(s: seq<UserId>, i: int, j: int)
    requires 0 <= i <= j < |s|
    ensures i < j && s[i] == s[j] ==> multiset(s)[s[i]] >= 2
  {
    if i < j && s[i] == s[j] {
      assert s == s[..i] + [s[i]] + s[i + 1..j] + [s[j]] + s[j + 1..];
    }
  }

  /** Toggling an absent user twice gives the list back. */
  lemma {:induction false} ToggleTwiceAbsent(s: seq<UserId>, u: UserId)
    requires u !in s
    ensures Toggle(Toggle(s, u), u) == s
  {
    assert Toggle(s, u) == s + [u];
    assert IndexOf(s + [u], u) == |s|;
    assert RemoveAt(s + [u], |s|) == s;
  }

  /** Toggling a present user (listed once) twice moves it to the end. */
  lemma {:induction false} ToggleTwicePresent(s: seq<UserId>, u: UserId)
    requires u in s && multiset(s)[u] <= 1
    ensures Toggle(Toggle(s, u), u) == RemoveAt(s, IndexOf(s, u)) + [u]
    ensures multiset(Toggle(Toggle(s, u), u)) == multiset(s)
  {
    var t := RemoveAt(s, IndexOf(s, u));
    assert multiset(t)[u] == 0;
    assert Toggle(t, u) == t + [u];
    assert multiset(t + [u]) == multiset(t) + multiset{u};
  }

  /** Moving the only occurrence of u to the end changes the list exactly when
      u was not last. */
  lemma {:induction false} MoveToEnd(s: seq<UserId>, u: UserId)
    requires u in s && multiset(s)[u] <= 1
    ensures RemoveAt(s, IndexOf(s, u)) + [u] == s <==> s[|s| - 1] == u
  {
    var n := |s| - 1;
    if s[n] == u {
      TwoOccurrences(s, IndexOf(s, u), n);
      assert RemoveAt(s, n) == s[..n];
      assert s == s[..n] + [s[n]];
    } else {
      assert (RemoveAt(s, IndexOf(s, u)) + [u])[n] == u;
    }
  }

  /** On the list: toggling twice restores the multiset of starrers, and the
      list itself exactly when the user was absent or already last. */
  lemma {:induction false} ToggleTwice(s: seq<UserId>, u: UserId)
    requires multiset(s)[u] <= 1
    ensures multiset(Toggle(Toggle(s, u), u)) == multiset(s)
    ensures Toggle(Toggle(s, u), u) == s <==> u !in s || s[|s| - 1] == u
  {
    if u !in s {
      ToggleTwiceAbsent(s, u);
    } else {
      ToggleTwicePresent(s, u);
      MoveToEnd(s, u);
    }
  }

  /** An event's starredBy list rewritten by f; an unknown id changes nothing. */
  function StarWith(es: seq<Event>, eventId: EventId, f: seq<UserId> -> seq<UserId>): seq<Event>
  {
    var k := EventIndex(es, eventId);
    if k == -1 then es else es[k := es[k].(starredBy := f(es[k].starredBy))]
  }

  /** Two rewrites of the same event's starredBy compose. */
  lemma {:induction false} StarWithTwice(es: seq<Event>, eventId: EventId,
                                         f: seq<UserId> -> seq<UserId>, g: seq<UserId> -> seq<UserId>)
    requires EventIndex(es, eventId) != -1
    ensures var k := EventIndex(es, eventId);
      StarWith(StarWith(es, eventId, f), eventId, g) == es[k := es[k].(starredBy := g(f(es[k].starredBy)))]
  {
    var k := EventIndex(es, eventId);
    var once := StarWith(es, eventId, f);
    assert SameEventIds(es, once);
    EventIndexSameIds(es, once, eventId);
    var z := es[k].(starredBy := g(f(es[k].starredBy)));
    assert once[k := z] == es[k := z];
  }

  lemma {:induction false} ToggleStarTwiceShape(es: seq<Event>, eventId: EventId, userId: UserId)
    requires EventIndex(es, eventId) != -1
    ensures var k := EventIndex(es, eventId);
      ToggleStar(ToggleStar(es, eventId, userId), eventId, userId) ==
        es[k := es[k].(starredBy := Toggle(Toggle(es[k].starredBy, userId), userId))]
  {
    var t := (s: seq<UserId>) => Toggle(s, userId);
    assert ToggleStar(es, eventId, userId) == StarWith(es, eventId, t);
    var once := ToggleStar(es, eventId, userId);
    assert ToggleStar(once, eventId, userId) == StarWith(once, eventId, t);
    StarWithTwice(es, eventId, t, t);
  }

  /** Toggling twice with the same user restores the set of starrers (the user
      being listed at most once); the list itself comes back exactly when the
      user was absent or last, and otherwise the user moves to the end. */
  lemma {:induction false} ToggleStarTwice(es: seq<Event>, eventId: EventId, userId: UserId)
    requires var k := EventIndex(es, eventId); k != -1 ==> multiset(es[k].starredBy)[userId] <= 1
    ensures var r := ToggleStar(ToggleStar(es, eventId, userId), eventId, userId); var k := EventIndex(es, eventId);
      (k == -1 ==> r == es) &&
      (k != -1 ==>
        var s := es[k].starredBy;
        var t := Toggle(Toggle(s, userId), userId);
        r == es[k := es[k].(starredBy := t)] &&
        multiset(t) == multiset(s) &&
        (userId in s ==> t == RemoveAt(s, IndexOf(s, userId)) + [userId]) &&
        (r == es <==> userId !in s || s[|s| - 1] == userId))
  {
    var k := EventIndex(es, eventId);
    if k != -1 {
      var s := es[k].starredBy;
      var t := Toggle(Toggle(s, userId), userId);
      var r := ToggleStar(ToggleStar(es, eventId, userId), eventId, userId);
      assert r == es[k := es[k].(starredBy := t)] by {
        ToggleStarTwiceShape(es, eventId, userId);
      }
      assert multiset(t) == multiset(s) && (t == s <==> userId !in s || s[|s| - 1] == userId) by {
        ToggleTwice(s, userId);
      }
      assert userId in s ==> t == RemoveAt(s, IndexOf(s, userId)) + [userId] by {
        if userId in s {
          ToggleTwicePresent(s, userId);
        }
      }
      StarredRestored(es, k, t);
    }
  }

  /** Rewriting one event's starredBy gives the collection back exactly when
      the list is unchanged. */
  lemma StarredRestored(es: seq<Event>, k: int, t: seq<UserId>)
    requires 0 <= k < |es|
    ensures es[k := es[k].(starredBy := t)] == es <==> t == es[k].starredBy
  {
    if es[k := es[k].(starredBy := t)] == es {
      assert es[k := es[k].(starredBy := t)][k] == es[k];
    }
  }

  // ---------------------------------------------------------------------
  // Registration

  /** The collections written back by an operation, and whether it threw
      before finishing (`.includes` on a record without a participation list). */
  datatype Outcome = Outcome(users: seq<User>, events: seq<Event>, thrown: bool)

  /** The user has a participation list that does not name the event yet. */
  predicate Uncredited(u: User, eventId: EventId)
  {
    u.participatedEvents.Some? && eventId !in u.participatedEvents.value
  }

  /** The record after crediting: eventId pushed to participatedEvents and the
      event's tokens added. */
  function Credit(u: User, eventId: EventId, amount: nat): User
    requires u.participatedEvents.Some?
  {
    u.(participatedEvents := Some(u.participatedEvents.value + [eventId]), tokens := u.tokens + amount)
  }

  /** Whether registerForEvent acts at all: the event and the user exist and
      the user is not yet a participant.  Capacity plays no part. */
  predicate RegisterActs(us: seq<User>, es: seq<Event>, eventId: EventId, userId: UserId)
  {
    var k := EventIndex(es, eventId);
    k != -1 && UserIndex(us, userId) != -1 && userId !in es[k].participants
  }

  /** registerForEvent.  The events are written before the crediting step, so
      they stay changed when that step throws. */
  function Register(us: seq<User>, es: seq<Event>, eventId: EventId, userId: UserId): Outcome
  {
    if !RegisterActs(us, es, eventId, userId) then Outcome(us, es, false)
    else
      var k := EventIndex(es, eventId);
      var j := UserIndex(us, userId);
      var ps := es[k].participants + [userId];
      var e := es[k].(participants := ps, registered := |ps|);
      var es' := es[k := e];
      if e.status != Completed then Outcome(us, es', false)
      else
        match us[j].participatedEvents
        case None => Outcome(us, es', true)
        case Some(p) =>
          if eventId in p then Outcome(us, es', false)
          else Outcome(us[j := Credit(us[j], eventId, e.tokens)], es', false)
  }

  /** What registering does to the events: when it acts, the user is appended
      to that event's participants exactly once and `registered` becomes the
      new length, whatever the capacity; nothing else changes. */
  lemma {:induction false} RegisterEvents(us: seq<User>, es: seq<Event>, eventId: EventId, userId: UserId)
    ensures var r := Register(us, es, eventId, userId); var k := EventIndex(es, eventId);
      SameEventIds(es, r.events) &&
      (!RegisterActs(us, es, eventId, userId) ==> r == Outcome(us, es, false)) &&
      (RegisterActs(us, es, eventId, userId) ==>
        (forall i :: 0 <= i < |es| && i != k ==> r.events[i] == es[i]) &&
        r.events[k].participants == es[k].participants + [userId] &&
        multiset(r.events[k].participants)[userId] == 1 &&
        r.events[k].registered == |r.events[k].participants| &&
        r.events[k].(participants := es[k].participants, registered := es[k].registered) == es[k])
  {
    if RegisterActs(us, es, eventId, userId) {
      var k := EventIndex(es, eventId);
      assert multiset(es[k].participants + [userId]) == multiset(es[k].participants) + multiset{userId};
    }
  }

  /** What registering does to the users: only the registering user can
      change, and only when the STORED status is completed and the user has
      not been credited for the event; then the tokens rise by the event's
      tokens and the event id is recorded.  Tokens never decrease, and a user
      already credited is untouched.  It throws exactly when it reaches the
      credit check for a record without a participation list. */
  lemma {:induction false} RegisterUsers(us: seq<User>, es: seq<Event>, eventId: EventId, userId: UserId)
    ensures var r := Register(us, es, eventId, userId); var k := EventIndex(es, eventId); var j := UserIndex(us, userId);
      var credits := RegisterActs(us, es, eventId, userId) && es[k].status == Completed && Uncredited(us[j], eventId);
      |r.users| == |us| &&
      (r.thrown <==> RegisterActs(us, es, eventId, userId) && es[k].status == Completed && us[j].participatedEvents.None?) &&
      (forall i :: 0 <= i < |us| && !(credits && i == j) ==> r.users[i] == us[i]) &&
      (credits ==> r.users[j] == Credit(us[j], eventId, es[k].tokens)) &&
      (forall i :: 0 <= i < |us| ==> r.users[i].tokens >= us[i].tokens) &&
      (forall i :: 0 <= i < |us| && !Uncredited(us[i], eventId) ==> r.users[i] == us[i])
  {
  }

  /** unregisterFromEvent: the first occurrence of the user spliced out of the
      participants and `registered` re-synchronised; an unknown event or a
      non-participant changes nothing.  Users are not part of its input. */
  function Unregister(es: seq<Event>, eventId: EventId, userId: UserId): seq<Event>
  {
    var k := EventIndex(es, eventId);
    if k == -1 then es
    else
      var i := IndexOf(es[k].participants, userId);
      if i == -1 then es
      else
        var ps := RemoveAt(es[k].participants, i);
        es[k := es[k].(participants := ps, registered := |ps|)]
  }

  /** Unregistering at a known event: nothing when the user is not listed,
      otherwise the first occurrence spliced out and the counter set to the
      shorter length. */
  lemma UnregisterFound(es: seq<Event>, eventId: EventId, userId: UserId, k: int, i: int)
    requires k == EventIndex(es, eventId) && k != -1 && i == IndexOf(es[k].participants, userId)
    ensures i == -1 ==> Unregister(es, eventId, userId) == es
    ensures i != -1 ==>
      Unregister(es, eventId, userId) ==
      es[k := es[k].(participants := RemoveAt(es[k].participants, i), registered := |es[k].participants| - 1)]
  {
  }

  /** Unregistering removes one occurrence of the user, sets `registered` to
      the new length, and changes nothing else. */
  lemma {:induction false} UnregisterEffect(es: seq<Event>, eventId: EventId, userId: UserId)
    ensures var r := Unregister(es, eventId, userId); var k := EventIndex(es, eventId);
      SameEventIds(es, r) &&
      (k == -1 || userId !in es[k].participants ==> r == es) &&
      (k != -1 && userId in es[k].participants ==>
        (forall i :: 0 <= i < |es| && i != k ==> r[i] == es[i]) &&
        multiset(r[k].participants) == multiset(es[k].participants) - multiset{userId} &&
        r[k].registered == |es[k].participants| - 1 &&
        r[k].(participants := es[k].participants, registered := es[k].registered) == es[k])
  {
  }

  /** Registering a non-participant and then unregistering gives the events
      back with only that event's counter re-synchronised to its participant
      count: the participant list is restored exactly, and the whole
      collection exactly when the counter was already in step. */
  lemma {:induction false} RegisterThenUnregister(us: seq<User>, es: seq<Event>, eventId: EventId, userId: UserId)
    requires var k := EventIndex(es, eventId); k != -1 ==> userId !in es[k].participants
    ensures var r := Unregister(Register(us, es, eventId, userId).events, eventId, userId);
      var k := EventIndex(es, eventId);
      (k == -1 || UserIndex(us, userId) == -1 ==> r == es) &&
      (k != -1 && UserIndex(us, userId) != -1 ==>
        r == es[k := es[k].(registered := |es[k].participants|)] &&
        (r == es <==> es[k].registered == |es[k].participants|))
  {
    var k := EventIndex(es, eventId);
    RegisterWrites(us, es, eventId, userId);
    if RegisterActs(us, es, eventId, userId) {
      var ps := es[k].participants;
      UnregisterAppended(es, eventId, userId);
      RegisteredRestored(es, k, |ps|);
    } else if k != -1 {
      UnregisterFound(es, eventId, userId, k, IndexOf(es[k].participants, userId));
    }
  }

  /** The events registering writes back. */
  lemma RegisterWrites(us: seq<User>, es: seq<Event>, eventId: EventId, userId: UserId)
    ensures var k := EventIndex(es, eventId);
      Register(us, es, eventId, userId).events ==
      if RegisterActs(us, es, eventId, userId)
      then es[k := es[k].(participants := es[k].participants + [userId], registered := |es[k].participants| + 1)]
      else es
  {
  }

  /** On the sample data the round trip is visible: the React Masterclass is
      seeded with 35 registered and no participants, so a student who
      registers and unregisters leaves its counter at 0. */
  lemma {:induction false} SeededRoundTripResyncs()
    ensures var es := Seed.SampleEvents;
      var r := Unregister(Register(Seed.SampleUsers, es, "evt_002", "demo_student").events, "evt_002", "demo_student");
      r != es && r == es[1 := es[1].(registered := 0)]
  {
    var es := Seed.SampleEvents;
    assert EventIndex(es, "evt_002") == 1 by {
      assert es[0].id != "evt_002";
    }
    assert UserIndex(Seed.SampleUsers, "demo_student") == 0;
    RegisterThenUnregister(Seed.SampleUsers, es, "evt_002", "demo_student");
  }

  /** Rewriting one event's counter gives the collection back exactly when
      the counter is unchanged. */
  lemma RegisteredRestored(es: seq<Event>, k: int, n: nat)
    requires 0 <= k < |es|
    ensures es[k := es[k].(registered := n)] == es <==> n == es[k].registered
    ensures es[k := es[k].(registered := n)][k] == es[k] <==> n == es[k].registered
  {
    if es[k := es[k].(registered := n)] == es {
      assert es[k := es[k].(registered := n)][k] == es[k];
    }
  }

  /** Unregistering the user just appended to an event's participants. */
  lemma {:induction false} UnregisterAppended(es: seq<Event>, eventId: EventId, userId: UserId)
    requires var k := EventIndex(es, eventId); k != -1 && userId !in es[k].participants
    ensures var k := EventIndex(es, eventId); var ps := es[k].participants;
      Unregister(es[k := es[k].(participants := ps + [userId], registered := |ps + [userId]|)], eventId, userId) ==
      es[k := es[k].(registered := |ps|)]
  {
    var k := EventIndex(es, eventId);
    var ps := es[k].participants;
    var mid := es[k := es[k].(participants := ps + [userId], registered := |ps + [userId]|)];
    assert EventIndex(mid, eventId) == k by {
      assert SameEventIds(es, mid);
      EventIndexSameIds(es, mid, eventId);
    }
    IndexOfAppended(ps, userId);
    UnregisterFound(mid, eventId, userId, k, |ps|);
    assert mid[k := mid[k].(participants := ps, registered := |ps|)] == es[k := es[k].(registered := |ps|)];
  }

  // ---------------------------------------------------------------------
  // Club operations

  /** createEvent: the form data spread into a record whose id is stamped and
      whose club, star and participant lists, counter and status are fixed. */
  function NewEvent(id: EventId, data: EventData, clubId: ClubId): Event
  {
    Event(id, data.name, data.club, clubId, data.clubLogo, data.venue, data.date,
          data.startTime, data.endTime, Upcoming, data.tokens, data.description,
          data.capacity, 0, [], [])
  }

  /** updateEventStatus: the matching event's status overwritten, whatever it was. */
  function UpdateStatus(es: seq<Event>, eventId: EventId, status: Status): seq<Event>
  {
    var k := EventIndex(es, eventId);
    if k == -1 then es else es[k := es[k].(status := status)]
  }

  /** Any status can be set from any status; only that field of that event
      changes, and an unknown id changes nothing. */
  lemma {:induction false} UpdateStatusEffect(es: seq<Event>, eventId: EventId, status: Status)
    ensures var r := UpdateStatus(es, eventId, status); var k := EventIndex(es, eventId);
      SameEventIds(es, r) &&
      (k == -1 ==> r == es) &&
      (k != -1 ==>
        r[k].status == status &&
        r[k].(status := es[k].status) == es[k] &&
        forall i :: 0 <= i < |es| && i != k ==> r[i] == es[i])
  {
  }

  /** The users after some of the forEach steps, and whether a step threw. */
  datatype Credits = Credits(users: seq<User>, thrown: bool)

  /** One step of the forEach in issueTokensToParticipants: the first user
      with this id is credited unless already credited; an unknown id is
      skipped; a record without a participation list throws. */
  function CreditStep(us: seq<User>, eventId: EventId, amount: nat, userId: UserId): Credits
  {
    var j := UserIndex(us, userId);
    if j == -1 then Credits(us, false)
    else
      match us[j].participatedEvents
      case None => Credits(us, true)
      case Some(p) =>
        if eventId in p then Credits(us, false)
        else Credits(us[j := Credit(us[j], eventId, amount)], false)
  }

  /** The forEach over ids, stopping at the first step that throws. */
  function CreditAll(us: seq<User>, eventId: EventId, amount: nat, ids: seq<UserId>): Credits
    decreases |ids|
  {
    if |ids| == 0 then Credits(us, false)
    else
      var prev := CreditAll(us, eventId, amount, ids[..|ids| - 1]);
      if prev.thrown then prev else CreditStep(prev.users, eventId, amount, ids[|ids| - 1])
  }

  /** The id names a user (the first with that id) that has no participation list. */
  predicate ThrowsOn(us: seq<User>, userId: UserId)
  {
    var j := UserIndex(us, userId);
    j != -1 && us[j].participatedEvents.None?
  }

  /** Whether user i is credited by issuing to ids: it is the record that
      find returns for its id, it is listed, and it is not yet credited. */
  predicate Receives(us: seq<User>, i: int, eventId: EventId, ids: seq<UserId>)
    requires 0 <= i < |us|
  {
    i == UserIndex(us, us[i].id) && us[i].id in ids && Uncredited(us[i], eventId)
  }

  /** One step of the forEach keeps the users aligned, throws exactly on a
      record without a participation list, and otherwise extends the
      crediting by the step's id. */
  lemma {:induction false} CreditStepEffect(us: seq<User>, prev: seq<User>, eventId: EventId, amount: nat,
                                            pre: seq<UserId>, x: UserId)
    requires Aligned(us, prev)
    requires forall i :: 0 <= i < |us| ==>
      prev[i] == if Receives(us, i, eventId, pre) then Credit(us[i], eventId, amount) else us[i]
    ensures var r := CreditStep(prev, eventId, amount, x);
      Aligned(us, r.users) && (r.thrown <==> ThrowsOn(us, x)) &&
      (!r.thrown ==> forall i :: 0 <= i < |us| ==>
         r.users[i] == if Receives(us, i, eventId, pre + [x]) then Credit(us[i], eventId, amount) else us[i])
  {
    var r := CreditStep(prev, eventId, amount, x);
    assert Aligned(us, r.users) && (r.thrown <==> ThrowsOn(us, x)) by {
      CreditStepShape(prev, eventId, amount, x);
      AlignedTransitive(us, prev, r.users);
      ThrowsOnAligned(us, prev, x);
    }
    if !r.thrown {
      forall i | 0 <= i < |us|
        ensures r.users[i] == if Receives(us, i, eventId, pre + [x]) then Credit(us[i], eventId, amount) else us[i]
      {
        CreditStepAt(us, prev, eventId, amount, pre, x, i);
      }
    }
  }

  /** A step keeps ids and participation-list presence in place, and throws
      exactly on a record without a participation list. */
  lemma CreditStepShape(us: seq<User>, eventId: EventId, amount: nat, x: UserId)
    ensures var r := CreditStep(us, eventId, amount, x);
      Aligned(us, r.users) && (r.thrown <==> ThrowsOn(us, x))
  {
  }

  lemma AlignedTransitive(a: seq<User>, b: seq<User>, c: seq<User>)
    requires Aligned(a, b) && Aligned(b, c)
    ensures Aligned(a, c)
  {
  }

  lemma {:induction false} ThrowsOnAligned(a: seq<User>, b: seq<User>, x: UserId)
    requires Aligned(a, b)
    ensures ThrowsOn(a, x) <==> ThrowsOn(b, x)
  {
    UserIndexAligned(a, b, x);
  }

  lemma {:induction false} CreditStepAt(us: seq<User>, prev: seq<User>, eventId: EventId, amount: nat,
                                        pre: seq<UserId>, x: UserId, i: nat)
    requires Aligned(us, prev) && i < |us|
    requires prev[i] == if Receives(us, i, eventId, pre) then Credit(us[i], eventId, amount) else us[i]
    requires !CreditStep(prev, eventId, amount, x).thrown
    ensures CreditStep(prev, eventId, amount, x).users[i] ==
      if Receives(us, i, eventId, pre + [x]) then Credit(us[i], eventId, amount) else us[i]
  {
    UserIndexAligned(us, prev, x);
    var j := UserIndex(us, x);
    assert us[i].id in pre + [x] <==> us[i].id in pre || us[i].id == x;
    if i != j {
      assert i == UserIndex(us, us[i].id) ==> us[i].id != x;
    }
  }

  lemma {:induction false} CreditAllEffect(us: seq<User>, eventId: EventId, amount: nat, ids: seq<UserId>)
    ensures var r := CreditAll(us, eventId, amount, ids);
      Aligned(us, r.users) &&
      (r.thrown <==> exists x :: x in ids && ThrowsOn(us, x)) &&
      (!r.thrown ==> forall i :: 0 <= i < |us| ==>
         r.users[i] == if Receives(us, i, eventId, ids) then Credit(us[i], eventId, amount) else us[i])
    decreases |ids|
  {
    if |ids| > 0 {
      var pre := ids[..|ids| - 1];
      var x := ids[|ids| - 1];
      assert ids == pre + [x];
      CreditAllEffect(us, eventId, amount, pre);
      var prev := CreditAll(us, eventId, amount, pre);
      assert (exists y :: y in ids && ThrowsOn(us, y)) <==>
             (exists y :: y in pre && ThrowsOn(us, y)) || ThrowsOn(us, x);
      if !prev.thrown {
        CreditStepEffect(us, prev.users, eventId, amount, pre, x);
      }
    }
  }

  /** issueTokensToParticipants.  Nothing is written when a step throws. */
  function IssueTokens(us: seq<User>, es: seq<Event>, eventId: EventId, ids: seq<UserId>): Outcome
  {
    var k := EventIndex(es, eventId);
    if k == -1 then Outcome(us, es, false)
    else
      var c := CreditAll(us, eventId, es[k].tokens, ids);
      if c.thrown then Outcome(us, es, true)
      else Outcome(c.users, es[k := es[k].(status := Completed)], false)
  }

  /** Issuing tokens credits each existing, listed, not yet credited user
      exactly once with the event's tokens, however often it is listed, and
      whether or not it is a participant; every other user is unchanged, and
      no user's tokens decrease.  The event becomes completed and no other
      event changes.  An unknown event changes nothing; a listed record
      without a participation list aborts the whole call. */
  lemma {:induction false} IssueTokensEffect(us: seq<User>, es: seq<Event>, eventId: EventId, ids: seq<UserId>)
    ensures var r := IssueTokens(us, es, eventId, ids); var k := EventIndex(es, eventId);
      Aligned(us, r.users) && SameEventIds(es, r.events) &&
      (r.thrown <==> k != -1 && exists x :: x in ids && ThrowsOn(us, x)) &&
      (k == -1 || r.thrown ==> r.users == us && r.events == es) &&
      (k != -1 && !r.thrown ==>
        r.events[k].status == Completed &&
        r.events[k].(status := es[k].status) == es[k] &&
        (forall i :: 0 <= i < |es| && i != k ==> r.events[i] == es[i]) &&
        (forall i :: 0 <= i < |us| ==>
           r.users[i] == (if Receives(us, i, eventId, ids) then Credit(us[i], eventId, es[k].tokens) else us[i]) &&
           r.users[i].tokens == us[i].tokens + (if Receives(us, i, eventId, ids) then es[k].tokens else 0)))
  {
    var k := EventIndex(es, eventId);
    if k != -1 {
      CreditAllEffect(us, eventId, es[k].tokens, ids);
    }
  }

  /** Issuing the same tokens again changes nothing: a user is credited at
      most once per event across repeated calls. */
  lemma {:induction false} IssueTokensIdempotent(us: seq<User>, es: seq<Event>, eventId: EventId, ids: seq<UserId>)
    ensures var r := IssueTokens(us, es, eventId, ids);
      IssueTokens(r.users, r.events, eventId, ids) == r
  {
    var r := IssueTokens(us, es, eventId, ids);
    IssueTokensEffect(us, es, eventId, ids);
    var k := EventIndex(es, eventId);
    if k != -1 && !r.thrown {
      EventIndexSameIds(es, r.events, eventId);
      var amount := es[k].tokens;
      assert r.events[k].tokens == amount;
      var c := CreditAll(r.users, eventId, amount, ids);
      CreditAllEffect(r.users, eventId, amount, ids);
      forall x | x in ids ensures !ThrowsOn(r.users, x) {
        UserIndexAligned(us, r.users, x);
      }
      assert !c.thrown;
      forall i | 0 <= i < |us| ensures !Receives(r.users, i, eventId, ids) {
        UserIndexAligned(us, r.users, us[i].id);
      }
      assert c.users == r.users;
      assert r.events[k := r.events[k].(status := Completed)] == r.events;
    }
  }
}
