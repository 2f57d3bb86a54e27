/**
 * The startup window of DataController._start_up: five consecutive months
 * centred on the current month, wrapping across year boundaries, and the test
 * that decides whether a persisted month record is loaded.
 */
module LoadWindow {

  datatype YearMonth = YearMonth(year: int, month: int)

  /** Months counted from a fixed origin; consecutive months have consecutive ordinals. */
  function Ordinal(ym: YearMonth): int {
    ym.year * 12 + ym.month
  }

  /** The first and last month of the window, both included. */
  datatype Span = Span(start: YearMonth, end: YearMonth)

  /**
   * The window around the current month. Python's `%` floors and Dafny's is
   * Euclidean; with the positive divisor 12 they agree. `x or 12` maps 0 to 12.
   */
  function Around(currentMonth: int, currentYear: int): (w: Span)
    requires 1 <= currentMonth <= 12
    ensures 1 <= w.start.month <= 12 && 1 <= w.end.month <= 12
    ensures Ordinal(w.end) - Ordinal(w.start) == 4
    ensures Ordinal(YearMonth(currentYear, currentMonth)) - Ordinal(w.start) == 2
  {
    var startMonth := (currentMonth - 2) % 12;
    var endMonth := (currentMonth + 2) % 12;
    Span(YearMonth(if currentMonth > 2 then currentYear else currentYear - 1,
                   if startMonth == 0 then 12 else startMonth),
         YearMonth(if currentMonth <= 10 then currentYear else currentYear + 1,
                   if endMonth == 0 then 12 else endMonth))
  }

  /** A record for (month, year) is loaded: it lies neither before the start nor after the end, compared as (year, month) pairs. */
  predicate Admits(w: Span, month: int, year: int)
    ensures Admits(w, month, year) ==> w.start.year <= year <= w.end.year
  {
    !((year < w.start.year || (year == w.start.year && month < w.start.month)) ||
      (year > w.end.year || (year == w.end.year && month > w.end.month)))
  }

  /** For real month numbers, the pairwise comparison is the comparison of ordinals. */
  lemma AdmitsByOrdinal(w: Span, month: int, year: int)
    requires 1 <= w.start.month <= 12 && 1 <= w.end.month <= 12
    requires 1 <= month <= 12
    ensures Admits(w, month, year) <==>
      Ordinal(w.start) <= Ordinal(YearMonth(year, month)) <= Ordinal(w.end)
  {
    var k := Ordinal(YearMonth(year, month));
    if year < w.start.year {
      assert k <= (w.start.year - 1) * 12 + 12;
    }
    if year > w.end.year {
      assert k >= (w.end.year + 1) * 12 + 1;
    }
  }

  /**
   * The loaded months are exactly the five whose ordinal is within two of the
   * current month's, at every current month including the wrapping ones.
   */
  lemma AdmitsCentred(currentMonth: int, currentYear: int, month: int, year: int)
    requires 1 <= currentMonth <= 12
    requires 1 <= month <= 12
    ensures Admits(Around(currentMonth, currentYear), month, year) <==>
      -2 <= Ordinal(YearMonth(year, month)) - Ordinal(YearMonth(currentYear, currentMonth)) <= 2
  {
    AdmitsByOrdinal(Around(currentMonth, currentYear), month, year);
  }
}
