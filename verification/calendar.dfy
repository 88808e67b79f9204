/** Calendar dates as the header parser yields them, the swap horizon and the display label of a date. */
module Calendar {
  import opened Wrappers
  import opened Text

  type Month = m: int | 1 <= m <= 12 witness 1
  type Day = d: int | 1 <= d <= 31 witness 1

  datatype Date = Date(year: int, month: Month, day: Day)

  /** The header parser: a tolerant, multi-format reading of a column header as a date.
      Its formats are not modelled; it is a parameter of every operation that needs it. */
  type HeaderParser = string -> Option<Date>

  /** The fixed reference date 2026-01-01 that the horizon is measured from. */
  const ReferenceYear: int := 2026
  const ReferenceMonth: Month := 1
  /** Swaps are allowed in the reference month and this many months after it. */
  const AllowedMonthRange: int := 1

  /** Whole months from the reference month to the month of d. */
  function MonthDiff(d: Date): (n: int)
    ensures n < 0 <==> d.year < ReferenceYear
    ensures n == 0 <==> d.year == ReferenceYear && d.month == ReferenceMonth
    ensures n == 1 <==> d.year == ReferenceYear && d.month == ReferenceMonth + 1
  {
    (d.year - ReferenceYear) * 12 + (d.month - ReferenceMonth)
  }

  predicate InHorizon(d: Date) {
    0 <= MonthDiff(d) <= AllowedMonthRange
  }

  /** The horizon is exactly January and February 2026, every day of both months. */
  lemma InHorizonIff(d: Date)
    ensures InHorizon(d) <==> d.year == 2026 && d.month <= 2
  {
    if d.year < 2026 {
      assert MonthDiff(d) <= -12 + 11;
    } else if d.year > 2026 {
      assert MonthDiff(d) >= 12 - 11;
    }
  }

  /** strftime('%b') in the C locale. */
  function MonthAbbrev(m: Month): string {
    ["Jan", "Feb", "Mar", "Apr", "May", "Jun", "Jul", "Aug", "Sep", "Oct", "Nov", "Dec"][m - 1]
  }

  /** A date as "<day> <abbreviated month>", e.g. "7 Jan". */
  function DayLabel(d: Date): string {
    NatToString(d.day) + " " + MonthAbbrev(d.month)
  }

  lemma MonthAbbrevInjective(m1: Month, m2: Month)
    requires MonthAbbrev(m1) == MonthAbbrev(m2)
    ensures m1 == m2
  {
    var names := ["Jan", "Feb", "Mar", "Apr", "May", "Jun", "Jul", "Aug", "Sep", "Oct", "Nov", "Dec"];
    assert MonthAbbrev(m1) == names[m1 - 1] && MonthAbbrev(m2) == names[m2 - 1];
  }

  /** Two dates get the same label exactly when they share day and month: only dates a
      whole number of years apart collide. */
  lemma DayLabelIff(d1: Date, d2: Date)
    ensures DayLabel(d1) == DayLabel(d2) <==> d1.day == d2.day && d1.month == d2.month
  {
    if DayLabel(d1) == DayLabel(d2) {
      var a, b := NatToString(d1.day), NatToString(d2.day);
      var s := DayLabel(d1);
      assert s == a + " " + MonthAbbrev(d1.month) == b + " " + MonthAbbrev(d2.month);
      assert a == s[..|a|] == b;
      NatToStringInjective(d1.day, d2.day);
      assert MonthAbbrev(d1.month) == s[|a| + 1..] == MonthAbbrev(d2.month);
      MonthAbbrevInjective(d1.month, d2.month);
    }
  }

  /** The sort key of a column: its date, with an unresolved header as the largest key. */
  predicate KeyLe(a: Option<Date>, b: Option<Date>) {
    match (a, b)
    case (_, None) => true
    case (None, Some(_)) => false
    case (Some(x), Some(y)) =>
      x.year < y.year || (x.year == y.year && (x.month < y.month || (x.month == y.month && x.day <= y.day)))
  }
}
