/** The student Dashboard: four lists built from the events with their
    derived statuses, and the milestone figure. */
module Dashboard {
  import opened Types
  import opened Seqs
  import opened Sorting
  import opened StatusRule

  function Min(a: nat, b: nat): nat { if a < b then a else b }

  /** Upcoming or ongoing. */
  predicate Active(e: Event)
  {
    e.status == Upcoming || e.status == Ongoing
  }

  function RegisteredActive(userId: UserId): Event -> bool
  {
    (e: Event) => userId in e.participants && Active(e)
  }

  /** The user's participation list exists and names the event
      (`participatedEvents?.includes`). */
  function ParticipatedIn(user: User): Event -> bool
  {
    (e: Event) => user.participatedEvents.Some? && e.id in user.participatedEvents.value
  }

  /** The upcoming list: the first three active events, in store order. */
  function UpcomingList(page: seq<Event>): (r: seq<Event>)
    ensures |r| == Min(3, Count(page, Active))
    ensures r <= Filter(page, Active)
    ensures forall e :: e in r ==> e in page && Active(e)
  {
    Take(Filter(page, Active), 3)
  }

  /** The starred list: the first three events the user starred, in store order. */
  function StarredList(page: seq<Event>, userId: UserId): (r: seq<Event>)
    ensures |r| == Min(3, Count(page, StarredByUser(userId)))
    ensures r <= Filter(page, StarredByUser(userId))
    ensures forall e :: e in r ==> e in page && userId in e.starredBy
  {
    Take(Filter(page, StarredByUser(userId)), 3)
  }

  /** The registered list: every active event that lists the user, with no cap. */
  function RegisteredList(page: seq<Event>, userId: UserId): (r: seq<Event>)
    ensures forall e :: e in r <==> e in page && userId in e.participants && Active(e)
    ensures forall e :: multiset(r)[e] == if userId in e.participants && Active(e) then multiset(page)[e] else 0
  {
    FilterMultiset(page, RegisteredActive(userId));
    Filter(page, RegisteredActive(userId))
  }

  /** The recent list: the events the user's participation list names,
      newest first, at most three. */
  function RecentList(page: seq<Event>, user: User): (r: seq<Event>)
    ensures |r| == Min(3, Count(page, ParticipatedIn(user)))
    ensures forall e :: e in r ==> e in page && ParticipatedIn(user)(e)
    ensures Sorted(r, ByDateNewestFirst)
  {
    var s := SortBy(Filter(page, ParticipatedIn(user)), ByDateNewestFirst);
    var r := Take(s, 3);
    forall e | e in r
      ensures e in page && ParticipatedIn(user)(e)
    {
      assert e in multiset(s);
    }
    r
  }

  /** The recent list holds the newest of the user's events: none left out
      is dated after one that is shown. */
  lemma {:induction false} RecentIsNewest(page: seq<Event>, user: User)
    ensures var r := RecentList(page, user);
      forall x, y :: x in page && ParticipatedIn(user)(x) && x !in r && y in r ==> !LexLess(y.date, x.date)
  {
    var f := Filter(page, ParticipatedIn(user));
    var s := SortBy(f, ByDateNewestFirst);
    assert RecentList(page, user) == Take(s, 3);
    NewestFirstPrefix(s, 3);
    forall x | x in page && ParticipatedIn(user)(x)
      ensures x in s
    {
      assert x in multiset(f);
    }
  }

  /** In a sequence sorted newest first, nothing after a prefix is dated
      after anything in it. */
  lemma {:induction false} NewestFirstPrefix(s: seq<Event>, n: nat)
    requires Sorted(s, ByDateNewestFirst)
    ensures forall x, y :: x in s && x !in Take(s, n) && y in Take(s, n) ==> !LexLess(y.date, x.date)
  {
    var r := Take(s, n);
    SortedAll(s, ByDateNewestFirst);
    forall x, y | x in s && x !in r && y in r
      ensures !LexLess(y.date, x.date)
    {
      var p :| 0 <= p < |s| && s[p] == x;
      var q :| 0 <= q < |r| && r[q] == y;
      assert p >= |r|;
      assert Le(s[q], s[p], ByDateNewestFirst);
    }
  }

  /** No list shows a past event, whatever its stored status: the upcoming
      and registered lists hold only events dated today or later. */
  lemma {:induction false} ActiveListsNotPast(es: seq<Event>, today: string, userId: UserId)
    ensures var page := WithDerivedStatus(es, today);
      forall e :: e in UpcomingList(page) + RegisteredList(page, userId) ==> !LexLess(e.date, today)
  {
    var page := WithDerivedStatus(es, today);
    forall e | e in UpcomingList(page) + RegisteredList(page, userId)
      ensures !LexLess(e.date, today)
    {
      assert e in page && Active(e);
      var i :| 0 <= i < |page| && page[i] == e;
      assert e.date == es[i].date;
    }
  }

  /** The milestone figure Math.max(25 - tokens, 0): the fewest more tokens
      that reach 25. */
  function Milestone(tokens: nat): (m: nat)
    ensures tokens + m >= 25
    ensures m == 0 || tokens + m == 25
    ensures m == 0 <==> tokens >= 25
  {
    if 25 - tokens > 0 then 25 - tokens else 0
  }
}
