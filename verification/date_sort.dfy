/** `groups[k].sort((a, b) => new Date(a.date) - new Date(b.date))`: a
    stable sort by date, ascending. Stability is what ECMA-262 (2023),
    section 23.1.3.30 (`Array.prototype.sort`), requires: items whose dates
    are equal keep their relative order. */
module DateSort {
  import opened CalendarItems

  predicate SortedByDate(s: seq<CalendarItem>) {
    forall i, j :: 0 <= i < j < |s| ==> s[i].date <= s[j].date
  }

  /** The items of `s` dated `d`, in their order in `s`. */
  function OnDate(s: seq<CalendarItem>, d: int): (r: seq<CalendarItem>)
    ensures |r| <= |s|
  {
    if |s| == 0 then []
    else (if s[0].date == d then [s[0]] else []) + OnDate(s[1..], d)
  }

  /** A permutation of `s` that moves no item past another of equal date:
      for every date, the items on that date appear in the same order. */
  ghost predicate StablePermutation(r: seq<CalendarItem>, s: seq<CalendarItem>) {
    forall d :: OnDate(r, d) == OnDate(s, d)
  }

  /** Places `x` before the first item dated at or after it, so that `x`
      stays ahead of the items of its own date. */
  function InsertByDate(x: CalendarItem, s: seq<CalendarItem>): (r: seq<CalendarItem>)
    requires SortedByDate(s)
    ensures multiset(r) == multiset(s) + multiset{x}
    ensures SortedByDate(r)
  {
    if |s| == 0 || x.date <= s[0].date then [x] + s
    else
      var t := InsertByDate(x, s[1..]);
      assert multiset(s) == multiset{s[0]} + multiset(s[1..]) by { assert s == [s[0]] + s[1..]; }
      forall j | 0 <= j < |t| ensures s[0].date <= t[j].date {
        assert t[j] in multiset(s[1..]) + multiset{x};
      }
      [s[0]] + t
  }

  /** Insertion sort from the right; each item is inserted ahead of the
      items that followed it in the input. */
  function SortByDate(s: seq<CalendarItem>): (r: seq<CalendarItem>)
    ensures multiset(r) == multiset(s)
    ensures SortedByDate(r)
  {
    if |s| == 0 then []
    else
      assert s == [s[0]] + s[1..];
      InsertByDate(s[0], SortByDate(s[1..]))
  }

  lemma {:induction false} OnDateOfInsert(x: CalendarItem, s: seq<CalendarItem>, d: int)
    requires SortedByDate(s)
    ensures OnDate(InsertByDate(x, s), d) == (if x.date == d then [x] else []) + OnDate(s, d)
  {
    if |s| == 0 || x.date <= s[0].date {
      assert ([x] + s)[1..] == s;
    } else {
      OnDateOfInsert(x, s[1..], d);
      var t := InsertByDate(x, s[1..]);
      assert ([s[0]] + t)[1..] == t;
    }
  }

  /** The sort is stable: on every date, the sorted items keep the input
      order. In particular a task and an event on the same instant keep the
      order they had when the tasks were listed first. */
  lemma {:induction false} SortByDateStable(s: seq<CalendarItem>)
    ensures StablePermutation(SortByDate(s), s)
  {
    if |s| > 0 {
      SortByDateStable(s[1..]);
      forall d ensures OnDate(SortByDate(s), d) == OnDate(s, d) {
        OnDateOfInsert(s[0], SortByDate(s[1..]), d);
      }
    }
  }

  lemma {:induction false} OnDateHasDate(s: seq<CalendarItem>, d: int)
    requires |OnDate(s, d)| > 0
    ensures exists i :: 0 <= i < |s| && s[i].date == d
  {
    if s[0].date != d {
      OnDateHasDate(s[1..], d);
      var i :| 0 <= i < |s[1..]| && s[1..][i].date == d;
      assert s[i + 1].date == d;
    }
  }

  /** A non-empty sequence has items on the date of its head. */
  lemma SomeDateOccupied(s: seq<CalendarItem>)
    ensures |s| > 0 ==> OnDate(s, s[0].date) != []
  {
  }

  /** A sorted sequence is determined by its items on each date: any two
      sorted stable permutations of the same input are equal. */
  lemma {:induction false} SortedStableUnique(a: seq<CalendarItem>, b: seq<CalendarItem>)
    requires SortedByDate(a) && SortedByDate(b)
    requires forall d :: OnDate(a, d) == OnDate(b, d)
    ensures a == b
  {
    if |a| == 0 {
      SomeDateOccupied(b);
    } else if |b| == 0 {
      SomeDateOccupied(a);
    } else {
      OnDateHasDate(a, b[0].date);
      OnDateHasDate(b, a[0].date);
      var dd := a[0].date;
      assert b[0].date == dd;
      assert OnDate(a, dd)[0] == a[0];
      assert OnDate(b, dd)[0] == b[0];
      forall d ensures OnDate(a[1..], d) == OnDate(b[1..], d) {
        if d == dd {
          assert OnDate(a[1..], d) == OnDate(a, d)[1..];
          assert OnDate(b[1..], d) == OnDate(b, d)[1..];
        } else {
          assert OnDate(a[1..], d) == OnDate(a, d);
          assert OnDate(b[1..], d) == OnDate(b, d);
        }
      }
      SortedStableUnique(a[1..], b[1..]);
      assert a == [a[0]] + a[1..];
      assert b == [b[0]] + b[1..];
    }
  }

  /** Whatever stable algorithm the host uses, the result is `SortByDate`. */
  lemma AnyStableSortAgrees(s: seq<CalendarItem>, r: seq<CalendarItem>)
    requires SortedByDate(r) && StablePermutation(r, s)
    ensures r == SortByDate(s)
  {
    SortByDateStable(s);
    SortedStableUnique(r, SortByDate(s));
  }

  /** The groups are sorted in place on every render; sorting an already
      sorted group leaves it as it is. */
  lemma SortByDateIdempotent(s: seq<CalendarItem>)
    ensures SortByDate(SortByDate(s)) == SortByDate(s)
  {
    SortByDateStable(s);
    SortByDateStable(SortByDate(s));
    SortedStableUnique(SortByDate(SortByDate(s)), SortByDate(s));
  }
}
