/**
 The month navigation of the calendar page: the first days of the previous
 and the next month. Python's `datetime` accepts years 1 through 9999 only,
 so stepping back from January of year 1 or forward from December of year
 9999 raises instead of producing a month; `None` stands for that error.
 */
module Calendar {
  import opened Types

  const MinYear := 1
  const MaxYear := 9999

  datatype YearMonth = YearMonth(year: int, month: int)

  /** A month `datetime` can represent. */
  predicate ValidMonth(ym: YearMonth) {
    MinYear <= ym.year <= MaxYear && 1 <= ym.month <= 12
  }

  /** Months counted from January of year 0: a reference numbering in which
      consecutive months differ by one. */
  function MonthIndex(ym: YearMonth): int {
    ym.year * 12 + ym.month - 1
  }

  function PrevMonth(ym: YearMonth): (r: Option<YearMonth>)
    requires ValidMonth(ym)
    ensures r.None? <==> ym.year == MinYear && ym.month == 1
    ensures r.Some? ==> ValidMonth(r.value) && MonthIndex(r.value) == MonthIndex(ym) - 1
    ensures r.Some? && ym.month == 1 ==> r.value == YearMonth(ym.year - 1, 12)
    ensures r.Some? && ym.month != 1 ==> r.value.year == ym.year
  {
    if ym.month == 1 then
      if ym.year - 1 < MinYear then None else Some(YearMonth(ym.year - 1, 12))
    else Some(YearMonth(ym.year, ym.month - 1))
  }

  function NextMonth(ym: YearMonth): (r: Option<YearMonth>)
    requires ValidMonth(ym)
    ensures r.None? <==> ym.year == MaxYear && ym.month == 12
    ensures r.Some? ==> ValidMonth(r.value) && MonthIndex(r.value) == MonthIndex(ym) + 1
    ensures r.Some? && ym.month == 12 ==> r.value == YearMonth(ym.year + 1, 1)
    ensures r.Some? && ym.month != 12 ==> r.value.year == ym.year
  {
    if ym.month == 12 then
      if ym.year + 1 > MaxYear then None else Some(YearMonth(ym.year + 1, 1))
    else Some(YearMonth(ym.year, ym.month + 1))
  }

  /** Distinct valid months have distinct indices. */
  lemma MonthIndexInjective(a: YearMonth, b: YearMonth)
    requires ValidMonth(a) && ValidMonth(b) && MonthIndex(a) == MonthIndex(b)
    ensures a == b
  {
  }

  /** Going forward then back returns to the same month. */
  lemma PrevOfNext(ym: YearMonth)
    requires ValidMonth(ym) && NextMonth(ym).Some?
    ensures PrevMonth(NextMonth(ym).value) == Some(ym)
  {
    var n := NextMonth(ym).value;
    MonthIndexInjective(PrevMonth(n).value, ym);
  }

  /** Going back then forward returns to the same month. */
  lemma NextOfPrev(ym: YearMonth)
    requires ValidMonth(ym) && PrevMonth(ym).Some?
    ensures NextMonth(PrevMonth(ym).value) == Some(ym)
  {
    var p := PrevMonth(ym).value;
    MonthIndexInjective(NextMonth(p).value, ym);
  }
}
