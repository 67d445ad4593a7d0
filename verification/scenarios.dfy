/** Worked examples of the calendar on concrete instants (UTC viewer). */
module Scenarios {
  import opened CivilDate
  import opened CalendarItems
  import opened MonthKey
  import opened StringOrder
  import opened DateSort
  import opened Grouping
  import opened Calendar

  const Utc: Zone := Zone(0)

  /** 2024-03-01T10:00Z, 2024-10-05T09:00Z, 2024-03-15T12:00Z. */
  const March1: int := 1_709_287_200_000
  const October5: int := 1_728_118_800_000
  const March15: int := 1_710_504_000_000

  lemma MonthsOfInstants()
    ensures YearMonthOf(March1, Utc) == YearMonth(2024, 3)
    ensures YearMonthOf(October5, Utc) == YearMonth(2024, 10)
    ensures YearMonthOf(March15, Utc) == YearMonth(2024, 3)
    ensures YearMonthOf(0, Utc) == YearMonth(1970, 1)
    ensures YearMonthOf(-1, Utc) == YearMonth(1969, 12)
  {
    DayNumbers();
    MonthOfInstant(March1, Civil(2024, 3, 1));
    MonthOfInstant(October5, Civil(2024, 10, 5));
    MonthOfInstant(March15, Civil(2024, 3, 15));
    MonthOfInstant(0, Civil(1970, 1, 1));
    MonthOfInstant(-1, Civil(1969, 12, 31));
  }

  lemma DayNumbers()
    ensures DaysFromCivil(Civil(2024, 3, 1)) == 19783
    ensures DaysFromCivil(Civil(2024, 10, 5)) == 20001
    ensures DaysFromCivil(Civil(2024, 3, 15)) == 19797
    ensures DaysFromCivil(Civil(1970, 1, 1)) == 0
    ensures DaysFromCivil(Civil(1969, 12, 31)) == -1
  {
    DayNumberOf(Civil(2024, 3, 1), 5, 24, 0);
    DayNumberOf(Civil(2024, 10, 5), 5, 24, 218);
    DayNumberOf(Civil(2024, 3, 15), 5, 24, 14);
    DayNumberOf(Civil(1970, 1, 1), 4, 369, 306);
    DayNumberOf(Civil(1969, 12, 31), 4, 369, 305);
  }

  /** `DaysFromCivil` from the era, year of era and day of the March year. */
  lemma DayNumberOf(c: Civil, era: int, yoe: int, doy: int)
    requires MarchYear(c) == 400 * era + yoe && 0 <= yoe < 400
    requires doy == (153 * (if c.month > 2 then c.month - 3 else c.month + 9) + 2) / 5 + c.day - 1
    ensures DaysFromCivil(c) == era * DaysPerEra + yoe * 365 + yoe / 4 - yoe / 100 + doy - EpochShift
  {
    var y := MarchYear(c);
    var q, r := y / 400, y % 400;
    assert y == 400 * q + r;
    assert q == era;
    assert EraOf(c) == era;
    assert DayOfEra(c) == yoe * 365 + yoe / 4 - yoe / 100 + doy;
  }

  /** An instant during civil day `c` (UTC) falls in `c`'s month. */
  lemma MonthOfInstant(t: int, c: Civil)
    requires ValidCivil(c)
    requires DaysFromCivil(c) * MillisPerDay <= t < (DaysFromCivil(c) + 1) * MillisPerDay
    ensures YearMonthOf(t, Utc) == YearMonth(c.year, c.month)
  {
    MonthOfInstantIn(t, c, Utc);
  }

  /** 2024-06-01T00:00Z. */
  const June1: int := 1_717_200_000_000

  const Essay: Task := Task("t1", "Essay", "", March1, "all_students")
  const Quiz: Task := Task("t2", "Quiz", "", October5, "all_students")
  const Trip: Event := Event("e1", "Trip", "", March15, March15 + 3_600_000, "all_students")

  /** Two tasks (March 1st, October 5th) and an event (March 15th), viewed
      on June 1st: the October group comes first, because "2024-10" sorts
      before "2024-3"; the March group lists the task, then the event. */
  lemma DashboardExample()
    ensures RenderCalendar([FromTask(Essay), FromTask(Quiz), FromEvent(Trip)], MonthKeyIn(Utc), June1)
      == [Group("2024-10", Rows([FromTask(Quiz)], June1)), Group("2024-3", Rows([FromTask(Essay), FromEvent(Trip)], June1))]
  {
    ExampleKeys();
    OctoberKeySortsBeforeFebruary();
    ThreeItemCalendar(FromTask(Essay), FromTask(Quiz), FromEvent(Trip), MonthKeyIn(Utc), June1, "2024-10", "2024-3");
  }

  /** The same dashboard with its badges: only the March task is past on
      June 1st, and the event never shows one. */
  lemma DashboardBadges()
    ensures DashboardCalendar([Essay, Quiz], [Trip], Utc, June1)
      == [Group("2024-10", [Row(FromTask(Quiz), false)]),
          Group("2024-3", [Row(FromTask(Essay), true), Row(FromEvent(Trip), false)])]
  {
    ExampleItems();
    DashboardExample();
    ExampleRows();
  }

  /** Three items where the first and last share the later key: two groups,
      the middle item alone in the first. */
  lemma ThreeItemCalendar(a: CalendarItem, b: CalendarItem, c: CalendarItem, key: CalendarItem -> string, now: int, k1: string, k2: string)
    requires key(a) == k2 && key(b) == k1 && key(c) == k2
    requires LexLess(k1, k2)
    requires a.date <= c.date
    ensures RenderCalendar([a, b, c], key, now) == [Group(k1, Rows([b], now)), Group(k2, Rows([a, c], now))]
  {
    ThreeItemGroups(a, b, c, key, now);
    assert RenderCalendar([a, b, c], key, now)
      == RenderGroups(SortStrings(InsertionOrderKeys([a, b, c], key)), Bucket([a, b, c], key), now);
  }

  lemma ThreeItemGroups(a: CalendarItem, b: CalendarItem, c: CalendarItem, key: CalendarItem -> string, now: int)
    requires key(a) == key(c) && LexLess(key(b), key(a))
    requires a.date <= c.date
    ensures var ks := SortStrings(InsertionOrderKeys([a, b, c], key));
      && (forall k :: k in ks ==> k in Bucket([a, b, c], key))
      && RenderGroups(ks, Bucket([a, b, c], key), now)
        == [Group(key(b), Rows([b], now)), Group(key(a), Rows([a, c], now))]
  {
    KeysOfThree(a, b, c, key);
    SortTwoKeys(key(b), key(a));
    ThreeItemBuckets(a, b, c, key);
    TwoGroups(key(b), key(a), Bucket([a, b, c], key), now);
    assert [b][1..] == [];
    assert SortByDate([b]) == [b];
    SortTwoItems(a, c);
  }

  lemma ThreeItemBuckets(a: CalendarItem, b: CalendarItem, c: CalendarItem, key: CalendarItem -> string)
    requires key(a) == key(c) != key(b)
    ensures var buckets := Bucket([a, b, c], key);
      && key(b) in buckets && buckets[key(b)] == [b]
      && key(a) in buckets && buckets[key(a)] == [a, c]
  {
    var items := [a, b, c];
    WithKeyOfThree(a, b, c, key(b), key);
    WithKeyOfThree(a, b, c, key(a), key);
    assert key(items[0]) == key(a) && key(items[1]) == key(b);
  }

  /** The badge: the March task is past on June 1st; the October task is
      not; the event never shows it. */
  lemma ExampleRows()
    ensures Rows([FromTask(Quiz)], June1) == [Row(FromTask(Quiz), false)]
    ensures Rows([FromTask(Essay), FromEvent(Trip)], June1) == [Row(FromTask(Essay), true), Row(FromEvent(Trip), false)]
  {
  }

  lemma TwoGroups(k1: string, k2: string, buckets: map<string, seq<CalendarItem>>, now: int)
    requires k1 in buckets && k2 in buckets
    ensures RenderGroups([k1, k2], buckets, now)
      == [Group(k1, Rows(SortByDate(buckets[k1]), now)), Group(k2, Rows(SortByDate(buckets[k2]), now))]
  {
  }

  lemma ExampleItems()
    ensures Project([Essay, Quiz], [Trip]) == [FromTask(Essay), FromTask(Quiz), FromEvent(Trip)]
  {
  }

  lemma ExampleKeys()
    ensures MonthKeyIn(Utc)(FromTask(Essay)) == "2024-3"
    ensures MonthKeyIn(Utc)(FromTask(Quiz)) == "2024-10"
    ensures MonthKeyIn(Utc)(FromEvent(Trip)) == "2024-3"
  {
    MonthsOfInstants();
    KeyExamples();
  }

  lemma WithKeyOfThree(a: CalendarItem, b: CalendarItem, c: CalendarItem, k: string, key: CalendarItem -> string)
    ensures WithKey([a, b, c], k, key)
      == (if key(a) == k then [a] else []) + (if key(b) == k then [b] else []) + (if key(c) == k then [c] else [])
  {
    WithKeyOfSnoc([], a, k, key);
    WithKeyOfSnoc([a], b, k, key);
    WithKeyOfSnoc([a, b], c, k, key);
    assert [] + [a] == [a];
    assert [a] + [b] == [a, b];
    assert [a, b] + [c] == [a, b, c];
  }

  lemma KeysOfThree(a: CalendarItem, b: CalendarItem, c: CalendarItem, key: CalendarItem -> string)
    requires key(a) == key(c) != key(b)
    ensures InsertionOrderKeys([a, b, c], key) == [key(a), key(b)]
  {
    assert [a, b, c][..2] == [a, b];
    assert [a, b][..1] == [a];
    assert [a][..0] == [];
    assert InsertionOrderKeys([a], key) == [key(a)];
    assert InsertionOrderKeys([a, b], key) == [key(a), key(b)];
  }

  lemma SortTwoKeys(k1: string, k2: string)
    requires LexLess(k1, k2)
    ensures SortStrings([k2, k1]) == [k1, k2]
  {
    LexLessAsymmetric(k1, k2);
    assert [k2, k1][1..] == [k1];
  }

  lemma SortTwoItems(a: CalendarItem, c: CalendarItem)
    requires a.date <= c.date
    ensures SortByDate([a, c]) == [a, c]
  {
    assert [a, c][1..] == [c];
    assert [c][1..] == [];
  }
}
