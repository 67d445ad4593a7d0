/** The `Calendar` component's view model: items bucketed by local month,
    buckets listed in the default string order of their keys, each bucket
    sorted by date, and tasks whose date has passed flagged "Deadline
    reached". The wall clock is the parameter `now`. */
module Calendar {
  import opened CivilDate
  import opened CalendarItems
  import opened MonthKey
  import opened StringOrder
  import opened DateSort
  import opened Grouping

  /** One rendered line: the item and whether its badge is shown. */
  datatype Row = Row(item: CalendarItem, deadlineReached: bool)

  /** One rendered month: its key as heading, then its rows. */
  datatype Group = Group(key: string, rows: seq<Row>)

  /** The badge test: a task whose date is strictly before now. */
  predicate DeadlineReached(it: CalendarItem, now: int) {
    it.kind == TaskKind && it.date < now
  }

  function Rows(items: seq<CalendarItem>, now: int): (rows: seq<Row>)
    ensures |rows| == |items|
    ensures forall j :: 0 <= j < |rows| ==> rows[j].item == items[j]
    ensures forall j :: 0 <= j < |rows| ==>
      (rows[j].deadlineReached <==> items[j].kind == TaskKind && items[j].date < now)
  {
    if |items| == 0 then [] else [Row(items[0], DeadlineReached(items[0], now))] + Rows(items[1..], now)
  }

  function RowItems(rows: seq<Row>): (r: seq<CalendarItem>)
    ensures |r| == |rows|
    ensures forall j :: 0 <= j < |rows| ==> r[j] == rows[j].item
  {
    if |rows| == 0 then [] else [rows[0].item] + RowItems(rows[1..])
  }

  function GroupKeys(groups: seq<Group>): (ks: seq<string>)
    ensures |ks| == |groups|
    ensures forall i :: 0 <= i < |groups| ==> ks[i] == groups[i].key
  {
    if |groups| == 0 then [] else [groups[0].key] + GroupKeys(groups[1..])
  }

  /** Every rendered item, group after group. */
  function AllItems(groups: seq<Group>): seq<CalendarItem>
  {
    if |groups| == 0 then [] else RowItems(groups[0].rows) + AllItems(groups[1..])
  }

  /** The month key of an item for a viewer in `zone`. */
  function MonthKeyIn(zone: Zone): CalendarItem -> string {
    it => ItemKey(it, zone)
  }

  function RenderGroups(keys: seq<string>, buckets: map<string, seq<CalendarItem>>, now: int): (groups: seq<Group>)
    requires forall k :: k in keys ==> k in buckets
    ensures |groups| == |keys|
    ensures forall i :: 0 <= i < |keys| ==>
      groups[i] == Group(keys[i], Rows(SortByDate(buckets[keys[i]]), now))
  {
    if |keys| == 0 then []
    else [Group(keys[0], Rows(SortByDate(buckets[keys[0]]), now))] + RenderGroups(keys[1..], buckets, now)
  }

  /** What `Calendar` renders for `items` grouped by `key` (the month key of
      the viewer's zone), at time `now`. */
  function RenderCalendar(items: seq<CalendarItem>, key: CalendarItem -> string, now: int): seq<Group>
  {
    var buckets := Bucket(items, key);
    SortedKeysOf(items, key);
    RenderGroups(SortStrings(InsertionOrderKeys(items, key)), buckets, now)
  }

  /** The dashboard's calendar: tasks and events projected, then rendered. */
  function DashboardCalendar(tasks: seq<Task>, events: seq<Event>, zone: Zone, now: int): seq<Group>
  {
    RenderCalendar(Project(tasks, events), MonthKeyIn(zone), now)
  }

  /** The sorted keys used by `RenderCalendar`. */
  lemma SortedKeysOf(items: seq<CalendarItem>, key: CalendarItem -> string)
    ensures var keys := SortStrings(InsertionOrderKeys(items, key));
      StrictlySortedStrings(keys)
      && (forall k :: k in keys <==> k in KeySet(items, key))
  {
    var ks := InsertionOrderKeys(items, key);
    SortDistinctStrictly(ks);
    assert forall k :: k in SortStrings(ks) <==> k in multiset(SortStrings(ks));
  }

  /** One group per month that occurs, headed by its key, with no key
      twice and the keys in increasing default string order. */
  lemma CalendarKeys(items: seq<CalendarItem>, key: CalendarItem -> string, now: int)
    ensures StrictlySortedStrings(GroupKeys(RenderCalendar(items, key, now)))
    ensures forall k :: k in GroupKeys(RenderCalendar(items, key, now)) <==>
      exists i :: 0 <= i < |items| && key(items[i]) == k
  {
    var keys := SortStrings(InsertionOrderKeys(items, key));
    SortedKeysOf(items, key);
    assert GroupKeys(RenderCalendar(items, key, now)) == keys;
  }

  /** Each group holds, sorted by date, exactly the items of its month:
      every item in it has the group's key, the rows are non-decreasing by
      date, and on each date they keep the input order. */
  lemma CalendarGroups(items: seq<CalendarItem>, key: CalendarItem -> string, now: int)
    ensures forall i :: 0 <= i < |RenderCalendar(items, key, now)| ==>
      var g := RenderCalendar(items, key, now)[i];
      |g.rows| > 0
      && (forall j :: 0 <= j < |g.rows| ==> key(g.rows[j].item) == g.key)
      && SortedByDate(RowItems(g.rows))
      && StablePermutation(RowItems(g.rows), WithKey(items, g.key, key))
  {
    var keys := SortStrings(InsertionOrderKeys(items, key));
    var r := RenderCalendar(items, key, now);
    SortedKeysOf(items, key);
    forall i | 0 <= i < |r|
      ensures |r[i].rows| > 0
      ensures forall j :: 0 <= j < |r[i].rows| ==> key(r[i].rows[j].item) == r[i].key
      ensures SortedByDate(RowItems(r[i].rows))
      ensures StablePermutation(RowItems(r[i].rows), WithKey(items, r[i].key, key))
    {
      var bucket := WithKey(items, keys[i], key);
      WithKeyPresent(items, keys[i], key);
      SortByDateStable(bucket);
      var sorted := SortByDate(bucket);
      assert RowItems(r[i].rows) == sorted;
      forall j | 0 <= j < |r[i].rows| ensures key(r[i].rows[j].item) == r[i].key {
        assert sorted[j] in multiset(bucket);
        var m :| 0 <= m < |bucket| && bucket[m] == sorted[j];
        assert key(bucket[m]) == keys[i];
      }
    }
  }

  lemma {:induction false} AllItemsOfRender(keys: seq<string>, buckets: map<string, seq<CalendarItem>>, now: int)
    requires forall k :: k in keys ==> k in buckets
    ensures multiset(AllItems(RenderGroups(keys, buckets, now)))
      == multiset(GatherBuckets(keys, buckets))
  {
    if |keys| > 0 {
      AllItemsOfRender(keys[1..], buckets, now);
      var g := RenderGroups(keys, buckets, now);
      assert g[1..] == RenderGroups(keys[1..], buckets, now);
      assert RowItems(g[0].rows) == SortByDate(buckets[keys[0]]);
    }
  }

  /** The buckets of `keys` read from the map, one after another. */
  function GatherBuckets(keys: seq<string>, buckets: map<string, seq<CalendarItem>>): seq<CalendarItem>
    requires forall k :: k in keys ==> k in buckets
  {
    if |keys| == 0 then [] else buckets[keys[0]] + GatherBuckets(keys[1..], buckets)
  }

  lemma {:induction false} GatherBucketsIsGather(items: seq<CalendarItem>, keys: seq<string>, key: CalendarItem -> string)
    requires forall k :: k in keys ==> k in Bucket(items, key)
    ensures GatherBuckets(keys, Bucket(items, key)) == Gather(items, keys, key)
  {
    if |keys| > 0 {
      assert keys[0] in keys;
      GatherBucketsIsGather(items, keys[1..], key);
    }
  }

  /** Nothing is lost or duplicated: the rendered items are a permutation
      of the input items. */
  lemma CalendarIsPermutation(items: seq<CalendarItem>, key: CalendarItem -> string, now: int)
    ensures multiset(AllItems(RenderCalendar(items, key, now))) == multiset(items)
  {
    var keys := SortStrings(InsertionOrderKeys(items, key));
    var buckets := Bucket(items, key);
    SortedKeysOf(items, key);
    AllItemsOfRender(keys, buckets, now);
    GatherBucketsIsGather(items, keys, key);
    SameElementsDistinct(keys, InsertionOrderKeys(items, key));
    GatherIsPermutation(items, keys, key);
  }

  /** Every input item is shown in exactly one group: the one headed by its
      own month key. */
  lemma EachItemInOneGroup(items: seq<CalendarItem>, key: CalendarItem -> string, now: int, x: CalendarItem)
    requires x in items
    ensures var r := RenderCalendar(items, key, now);
      (exists i :: 0 <= i < |r| && x in RowItems(r[i].rows))
      && (forall i :: 0 <= i < |r| && x in RowItems(r[i].rows) ==> r[i].key == key(x))
      && (forall i, j :: 0 <= i < j < |r| ==> !(x in RowItems(r[i].rows) && x in RowItems(r[j].rows)))
  {
    var r := RenderCalendar(items, key, now);
    CalendarGroups(items, key, now);
    CalendarKeys(items, key, now);
    CalendarIsPermutation(items, key, now);
    assert x in multiset(AllItems(r));
    UniqueGroup(r, x, key);
  }

  /** In groups with distinct keys whose items carry their group's key, an
      item shown at all is shown in exactly one group. */
  lemma UniqueGroup(groups: seq<Group>, x: CalendarItem, key: CalendarItem -> string)
    requires StrictlySortedStrings(GroupKeys(groups))
    requires forall i, j :: 0 <= i < |groups| && 0 <= j < |groups[i].rows| ==>
      key(groups[i].rows[j].item) == groups[i].key
    requires x in AllItems(groups)
    ensures exists i :: 0 <= i < |groups| && x in RowItems(groups[i].rows)
    ensures forall i :: 0 <= i < |groups| && x in RowItems(groups[i].rows) ==> groups[i].key == key(x)
    ensures forall i, j :: 0 <= i < j < |groups| ==> !(x in RowItems(groups[i].rows) && x in RowItems(groups[j].rows))
  {
    InAllItems(groups, x);
    forall i | 0 <= i < |groups| && x in RowItems(groups[i].rows) ensures groups[i].key == key(x) {
      var j :| 0 <= j < |groups[i].rows| && RowItems(groups[i].rows)[j] == x;
    }
    forall i, j | 0 <= i < j < |groups|
      ensures !(x in RowItems(groups[i].rows) && x in RowItems(groups[j].rows))
    {
      assert LexLess(GroupKeys(groups)[i], GroupKeys(groups)[j]);
    }
  }

  lemma {:induction false} InAllItems(groups: seq<Group>, x: CalendarItem)
    requires x in AllItems(groups)
    ensures exists i :: 0 <= i < |groups| && x in RowItems(groups[i].rows)
  {
    if x !in RowItems(groups[0].rows) {
      InAllItems(groups[1..], x);
      var i :| 0 <= i < |groups[1..]| && x in RowItems(groups[1..][i].rows);
      assert groups[i + 1] == groups[1..][i];
    }
  }

  /** The badge is shown exactly on tasks dated strictly before `now`: never
      on an event, never on a task at or after `now`. */
  lemma DeadlineBadge(items: seq<CalendarItem>, key: CalendarItem -> string, now: int)
    ensures forall i, j :: (0 <= i < |RenderCalendar(items, key, now)|
      && 0 <= j < |RenderCalendar(items, key, now)[i].rows|) ==>
      var row := RenderCalendar(items, key, now)[i].rows[j];
      (row.deadlineReached <==> row.item.kind == TaskKind && row.item.date < now)
  {
  }

  /** No event is listed before a task. */
  predicate TasksFirst(s: seq<CalendarItem>) {
    forall p, q :: 0 <= p < q < |s| ==> !(s[p].kind == EventKind && s[q].kind == TaskKind)
  }

  lemma ProjectTasksFirst(tasks: seq<Task>, events: seq<Event>)
    ensures TasksFirst(Project(tasks, events))
  {
  }

  lemma {:induction false} WithKeyMembers(items: seq<CalendarItem>, k: string, key: CalendarItem -> string)
    ensures forall x :: x in WithKey(items, k, key) ==> x in items
  {
    if |items| > 0 {
      WithKeyMembers(items[..|items| - 1], k, key);
      assert forall x :: x in items[..|items| - 1] ==> x in items;
    }
  }

  lemma {:induction false} WithKeyTasksFirst(items: seq<CalendarItem>, k: string, key: CalendarItem -> string)
    requires TasksFirst(items)
    ensures TasksFirst(WithKey(items, k, key))
  {
    if |items| > 0 {
      var prefix := items[..|items| - 1];
      var last := items[|items| - 1];
      WithKeyTasksFirst(prefix, k, key);
      WithKeyMembers(prefix, k, key);
      var w := WithKey(prefix, k, key);
      if key(last) == k && last.kind == TaskKind {
        forall p | 0 <= p < |w| ensures w[p].kind == TaskKind {
          assert w[p] in w;
          assert w[p] in prefix;
          var i :| 0 <= i < |prefix| && prefix[i] == w[p];
          assert items[i] == prefix[i];
        }
      }
    }
  }

  lemma {:induction false} OnDateMembers(s: seq<CalendarItem>, d: int)
    ensures forall x :: x in OnDate(s, d) ==> x in s
  {
    if |s| > 0 {
      OnDateMembers(s[1..], d);
    }
  }

  lemma {:induction false} OnDateTasksFirst(s: seq<CalendarItem>, d: int)
    requires TasksFirst(s)
    ensures TasksFirst(OnDate(s, d))
  {
    if |s| > 0 {
      OnDateTasksFirst(s[1..], d);
      OnDateMembers(s[1..], d);
      var w := OnDate(s[1..], d);
      if s[0].date == d && s[0].kind == EventKind {
        forall q | 0 <= q < |w| ensures w[q].kind == EventKind {
          assert w[q] in w;
          assert w[q] in s[1..];
          var i :| 0 <= i < |s[1..]| && s[1..][i] == w[q];
          assert s[i + 1] == w[q];
        }
      }
    }
  }

  /** The stable tie-break seen from the dashboard: on any date, a group of
      the dashboard's calendar lists its tasks before its events. */
  lemma DashboardTasksBeforeEvents(tasks: seq<Task>, events: seq<Event>, zone: Zone, now: int)
    ensures var r := DashboardCalendar(tasks, events, zone, now);
      forall i, d :: 0 <= i < |r| ==> TasksFirst(OnDate(RowItems(r[i].rows), d))
  {
    var items := Project(tasks, events);
    var key := MonthKeyIn(zone);
    var r := RenderCalendar(items, key, now);
    CalendarGroups(items, key, now);
    ProjectTasksFirst(tasks, events);
    StableGroupsTasksFirst(items, r, key);
  }

  lemma StableGroupsTasksFirst(items: seq<CalendarItem>, groups: seq<Group>, key: CalendarItem -> string)
    requires TasksFirst(items)
    requires forall i :: 0 <= i < |groups| ==> StablePermutation(RowItems(groups[i].rows), WithKey(items, groups[i].key, key))
    ensures forall i, d :: 0 <= i < |groups| ==> TasksFirst(OnDate(RowItems(groups[i].rows), d))
  {
    forall i, d | 0 <= i < |groups| ensures TasksFirst(OnDate(RowItems(groups[i].rows), d)) {
      var w := WithKey(items, groups[i].key, key);
      WithKeyTasksFirst(items, groups[i].key, key);
      OnDateTasksFirst(w, d);
      assert OnDate(RowItems(groups[i].rows), d) == OnDate(w, d);
    }
  }
}
