/** The comparators the pages hand to Array.prototype.sort, and sorting by
    them.  Dates are `YYYY-MM-DD` strings, for which comparing the parsed
    times agrees with comparing the strings; names are compared by code
    unit, standing for localeCompare. */
module Sorting {
  import opened Types
  import opened Seqs

  datatype SortKey =
    | ByDate             // new Date(a.date) - new Date(b.date)
    | ByTokens           // b.tokens - a.tokens
    | ByName             // a.name.localeCompare(b.name)
    | ByDateNewestFirst  // new Date(b.date) - new Date(a.date)

  /** The comparator is negative: a goes strictly before b. */
  predicate Before(a: Event, b: Event, key: SortKey)
  {
    match key
    case ByDate => LexLess(a.date, b.date)
    case ByTokens => a.tokens > b.tokens
    case ByName => LexLess(a.name, b.name)
    case ByDateNewestFirst => LexLess(b.date, a.date)
  }

  /** a may stand before b in a sorted result. */
  predicate Le(a: Event, b: Event, key: SortKey)
  {
    !Before(b, a, key)
  }

  /** No two events go strictly before each other, so any two are ordered. */
  lemma BeforeAsymmetric(a: Event, b: Event, key: SortKey)
    ensures Before(a, b, key) ==> Le(a, b, key)
    ensures Le(a, b, key) || Le(b, a, key)
  {
    match key
    case ByDate => LexLessTrichotomy(a.date, b.date);
    case ByTokens =>
    case ByName => LexLessTrichotomy(a.name, b.name);
    case ByDateNewestFirst => LexLessTrichotomy(a.date, b.date);
  }

  lemma LeTransitive(a: Event, b: Event, c: Event, key: SortKey)
    requires Le(a, b, key) && Le(b, c, key)
    ensures Le(a, c, key)
  {
    match key
    case ByDate => LexLeTransitive(a.date, b.date, c.date);
    case ByTokens =>
    case ByName => LexLeTransitive(a.name, b.name, c.name);
    case ByDateNewestFirst => LexLeTransitive(c.date, b.date, a.date);
  }

  /** Each event may stand before the next. */
  predicate Sorted(s: seq<Event>, key: SortKey)
  {
    forall i :: 0 < i < |s| ==> Le(s[i - 1], s[i], key)
  }

  /** In a sorted sequence every event may stand before every later one. */
  lemma {:induction false} SortedAll(s: seq<Event>, key: SortKey)
    requires Sorted(s, key)
    ensures forall i, j :: 0 <= i < j < |s| ==> Le(s[i], s[j], key)
  {
    forall i, j | 0 <= i < j < |s|
      ensures Le(s[i], s[j], key)
    {
      SortedFrom(s, key, i, j);
    }
  }

  lemma {:induction false} SortedFrom(s: seq<Event>, key: SortKey, i: nat, j: nat)
    requires Sorted(s, key) && i < j < |s|
    ensures Le(s[i], s[j], key)
    decreases j - i
  {
    if i + 1 < j {
      SortedFrom(s, key, i, j - 1);
      LeTransitive(s[i], s[j - 1], s[j], key);
    }
  }

  /** Sorting by tokens puts the token values in non-increasing order. */
  lemma {:induction false} SortedByTokens(s: seq<Event>)
    requires Sorted(s, ByTokens)
    ensures forall i, j :: 0 <= i < j < |s| ==> s[i].tokens >= s[j].tokens
  {
    SortedAll(s, ByTokens);
    forall i, j | 0 <= i < j < |s| ensures s[i].tokens >= s[j].tokens {
      assert Le(s[i], s[j], ByTokens);
    }
  }

  /** The first n events are sorted. */
  predicate SortedUpTo(s: seq<Event>, n: nat, key: SortKey)
    requires n <= |s|
  {
    forall k :: 0 < k < n ==> Le(s[k - 1], s[k], key)
  }

  /** While s[i] sinks to place j: every neighbouring pair of s[..i + 1] is
      ordered except the two around j, the events either side of j are
      ordered, and the sinking event may stand before its right neighbour. */
  predicate Sinking(s: seq<Event>, i: nat, j: nat, key: SortKey)
  {
    j <= i < |s| &&
    (forall k :: 0 < k <= i && k != j && k != j + 1 ==> Le(s[k - 1], s[k], key)) &&
    (0 < j < i ==> Le(s[j - 1], s[j + 1], key)) &&
    (j < i ==> Le(s[j], s[j + 1], key))
  }

  lemma SinkingStart(s: seq<Event>, i: nat, key: SortKey)
    requires i < |s| && SortedUpTo(s, i, key)
    ensures Sinking(s, i, i, key)
  {
  }

  /** Swapping the sinking event with a left neighbour it goes before keeps the pattern. */
  lemma {:induction false} SinkingSwap(s: seq<Event>, i: nat, j: nat, key: SortKey)
    requires Sinking(s, i, j, key) && 0 < j && Before(s[j], s[j - 1], key)
    ensures Sinking(s[j - 1 := s[j]][j := s[j - 1]], i, j - 1, key)
  {
    BeforeAsymmetric(s[j], s[j - 1], key);
  }

  lemma SinkingDone(s: seq<Event>, i: nat, j: nat, key: SortKey)
    requires Sinking(s, i, j, key) && (j == 0 || !Before(s[j], s[j - 1], key))
    ensures SortedUpTo(s, i + 1, key)
  {
  }

  /** One pass of the insertion sort: a[i] sinks left past every event it
      goes strictly before, extending the sorted prefix by one. */
  method SinkInto(a: array<Event>, i: nat, key: SortKey)
    requires i < a.Length && SortedUpTo(a[..], i, key)
    modifies a
    ensures SortedUpTo(a[..], i + 1, key)
    ensures multiset(a[..]) == multiset(old(a[..]))
  {
    SinkingStart(a[..], i, key);
    var j: nat := i;
    while j > 0 && Before(a[j], a[j - 1], key)
      invariant Sinking(a[..], i, j, key)
      invariant multiset(a[..]) == multiset(old(a[..]))
    {
      ghost var s := a[..];
      SinkingSwap(s, i, j, key);
      a[j - 1], a[j] := a[j], a[j - 1];
      assert a[..] == s[j - 1 := s[j]][j := s[j - 1]];
      j := j - 1;
    }
    SinkingDone(a[..], i, j, key);
  }

  /** Array.prototype.sort on an array of events, in place (an insertion
      sort; the order among events the comparator calls equal is not
      stated). */
  method SortInPlace(a: array<Event>, key: SortKey)
    modifies a
    ensures Sorted(a[..], key)
    ensures multiset(a[..]) == multiset(old(a[..]))
  {
    var i := 0;
    while i < a.Length
      invariant 0 <= i <= a.Length
      invariant SortedUpTo(a[..], i, key)
      invariant multiset(a[..]) == multiset(old(a[..]))
    {
      SinkInto(a, i, key);
      i := i + 1;
    }
  }

  /** The array the filter chain produced, sorted in place; its contents
      afterwards. */
  method SortArrayOf(s: seq<Event>, key: SortKey) returns (r: seq<Event>)
    ensures Sorted(r, key)
    ensures multiset(r) == multiset(s)
  {
    var a := new Event[|s|](i requires 0 <= i < |s| => s[i]);
    assert a[..] == s;
    SortInPlace(a, key);
    r := a[..];
  }

  /** Insert x into s in front of the first element it may stand before. */
  function Insert(x: Event, s: seq<Event>, key: SortKey): (r: seq<Event>)
    ensures multiset(r) == multiset(s) + multiset{x}
    ensures |r| == |s| + 1
    ensures r[0] == x || (|s| > 0 && r[0] == s[0])
  {
    if |s| == 0 then [x]
    else if Le(x, s[0], key) then [x] + s
    else
      assert s == [s[0]] + s[1..];
      [s[0]] + Insert(x, s[1..], key)
  }

  lemma {:induction false} InsertSorted(x: Event, s: seq<Event>, key: SortKey)
    requires Sorted(s, key)
    ensures Sorted(Insert(x, s, key), key)
  {
    if |s| > 0 && !Le(x, s[0], key) {
      BeforeAsymmetric(x, s[0], key);
      var t := Insert(x, s[1..], key);
      InsertSorted(x, s[1..], key);
      var r := [s[0]] + t;
      forall i | 0 < i < |r|
        ensures Le(r[i - 1], r[i], key)
      {
        if i > 1 {
          assert r[i - 1] == t[i - 2] && r[i] == t[i - 1];
        }
      }
    }
  }

  /** The sort of a .sort() chain on a fresh array, as a value. */
  function SortBy(s: seq<Event>, key: SortKey): (r: seq<Event>)
    ensures Sorted(r, key)
    ensures multiset(r) == multiset(s) && |r| == |s|
  {
    if |s| == 0 then []
    else
      assert s == [s[0]] + s[1..];
      var t := SortBy(s[1..], key);
      InsertSorted(s[0], t, key);
      var r := Insert(s[0], t, key);
      assert |r| == |multiset(r)|;
      r
  }
}
