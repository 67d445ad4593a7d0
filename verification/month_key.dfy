/** The calendar's grouping key: `${d.getFullYear()}-${d.getMonth()+1}`,
    the local year and the one-based month in decimal, joined by '-', with
    no zero padding. */
module MonthKey {
  import opened Wrappers
  import opened Decimal
  import opened CivilDate
  import opened CalendarItems

  function KeyOf(ym: YearMonth): (k: string)
    ensures '-' in k
  {
    IntToDecimal(ym.year) + "-" + NatToDecimal(ym.month)
  }

  /** Key of the month an item's date falls in, for a viewer in `zone`. */
  function ItemKey(it: CalendarItem, zone: Zone): string {
    KeyOf(YearMonthOf(it.date, zone))
  }

  /** Position of the last '-' in `s`. */
  function LastDash(s: string): (r: Option<nat>)
    ensures r.Some? ==> r.value < |s| && s[r.value] == '-'
    ensures r.Some? ==> forall j :: r.value < j < |s| ==> s[j] != '-'
    ensures r.None? ==> '-' !in s
  {
    if |s| == 0 then None
    else if s[|s| - 1] == '-' then Some(|s| - 1)
    else LastDash(s[..|s| - 1])
  }

  /** Reads a key back: year before the last '-', month after it. */
  function ParseKey(k: string): Option<YearMonth>
  {
    match LastDash(k)
    case None => None
    case Some(i) =>
      match (ParseInt(k[..i]), ParseNat(k[i + 1..]))
      case (Some(y), Some(m)) => if 1 <= m <= 12 then Some(YearMonth(y, m)) else None
      case _ => None
  }

  lemma {:induction false} LastDashBeforeDigits(p: string, m: string)
    requires AllDigits(m)
    ensures LastDash(p + "-" + m) == Some(|p|)
  {
    if |m| > 0 {
      var s := p + "-" + m;
      assert s[..|s| - 1] == p + "-" + m[..|m| - 1];
      LastDashBeforeDigits(p, m[..|m| - 1]);
    }
  }

  /** Rendering a year and month and reading them back gives them again. */
  lemma {:induction false} KeyRoundTrip(ym: YearMonth)
    ensures ParseKey(KeyOf(ym)) == Some(ym)
  {
    var y := IntToDecimal(ym.year);
    var m := NatToDecimal(ym.month);
    var k := KeyOf(ym);
    LastDashBeforeDigits(y, m);
    assert k[..|y|] == y;
    assert k[|y| + 1..] == m;
    ParseIntRoundTrip(ym.year);
    ParseNatRoundTrip(ym.month);
  }

  /** Two months share a key exactly when they are the same month. */
  lemma KeyInjective(a: YearMonth, b: YearMonth)
    ensures KeyOf(a) == KeyOf(b) <==> a == b
  {
    KeyRoundTrip(a);
    KeyRoundTrip(b);
  }

  /** Two items land in the same group iff their dates fall in the same
      local year and month. */
  lemma SameGroupIffSameMonth(a: CalendarItem, b: CalendarItem, zone: Zone)
    ensures ItemKey(a, zone) == ItemKey(b, zone) <==> YearMonthOf(a.date, zone) == YearMonthOf(b.date, zone)
  {
    KeyInjective(YearMonthOf(a.date, zone), YearMonthOf(b.date, zone));
  }

  /** No zero padding: February 2024 is "2024-2", October is "2024-10". */
  lemma KeyExamples()
    ensures KeyOf(YearMonth(2024, 2)) == "2024-2"
    ensures KeyOf(YearMonth(2024, 10)) == "2024-10"
    ensures KeyOf(YearMonth(-1, 12)) == "-1-12"
  {
  }
}
