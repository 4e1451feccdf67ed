/** The status the Events and Dashboard pages show: derived from the event's
    `YYYY-MM-DD` date against today's, whatever the store says. */
module StatusRule {
  import opened Types
  import opened Seqs

  /** Completed before today, ongoing today, upcoming after; exactly one. */
  function DerivedStatus(date: string, today: string): (s: Status)
    ensures s == Completed <==> LexLess(date, today)
    ensures s == Ongoing <==> date == today
    ensures s == Upcoming <==> LexLess(today, date)
  {
    LexLessTrichotomy(date, today);
    if LexLess(date, today) then Completed
    else if date == today then Ongoing
    else Upcoming
  }

  /** The status map of loadEvents and loadDashboardData: every event keeps
      its place and all its fields but the status. */
  function WithDerivedStatus(es: seq<Event>, today: string): (r: seq<Event>)
    ensures |r| == |es|
    ensures forall i :: 0 <= i < |es| ==>
      r[i].status == DerivedStatus(es[i].date, today) && r[i].(status := es[i].status) == es[i]
  {
    if |es| == 0 then []
    else [es[0].(status := DerivedStatus(es[0].date, today))] + WithDerivedStatus(es[1..], today)
  }

  /** An event on the page is the stored event at the same place, with the
      status recomputed. */
  lemma {:induction false} DerivedEventOrigin(es: seq<Event>, today: string, e: Event)
    requires e in WithDerivedStatus(es, today)
    ensures exists i :: 0 <= i < |es| && e == es[i].(status := DerivedStatus(es[i].date, today))
  {
    var r := WithDerivedStatus(es, today);
    var i :| 0 <= i < |r| && r[i] == e;
    assert e == es[i].(status := DerivedStatus(es[i].date, today));
  }
}
