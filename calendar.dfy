/**
 * Calendar months as (year, month) pairs, the month and date string shapes the
 * schemas and handlers match, the `YYYY-MM` strings the month walk formats,
 * and the clock reading the range handler compares against.
 */
module Calendar {
  import opened Text

  // ---------------------------------------------------------------- string shapes

  /** `^\d{4}-\d{2}$`: the shape of a month string. The month number itself is not checked. */
  predicate MonthShape(s: string) {
    |s| == 7 && AllDigits(s[..4]) && s[4] == '-' && AllDigits(s[5..])
  }

  /** `^\d{4}-\d{2}-\d{2}$`: the shape of a date string, with no calendar check. */
  predicate DateShape(s: string) {
    |s| == 10 && AllDigits(s[..4]) && s[4] == '-' && AllDigits(s[5..7]) && s[7] == '-' && AllDigits(s[8..])
  }

  // ---------------------------------------------------------------- months

  /** A calendar month; `month` is 1-based, and only 1..12 names a real month. */
  datatype YearMonth = YearMonth(year: int, month: int)

  predicate ValidMonth(ym: YearMonth) {
    1 <= ym.month <= 12
  }

  /** The year and month numbers a shape-valid month string spells; `2025-13` gives month 13. */
  function ParseYearMonth(s: string): YearMonth
    requires MonthShape(s)
  {
    YearMonth(DigitsValue(s[..4]), DigitsValue(s[5..]))
  }

  /** Months counted from January of year 0: consecutive months have consecutive indices. */
  function Index(ym: YearMonth): int {
    ym.year * 12 + (ym.month - 1)
  }

  function FromIndex(i: int): (ym: YearMonth)
    ensures ValidMonth(ym) && Index(ym) == i
  {
    YearMonth(i / 12, i % 12 + 1)
  }

  lemma FromIndexOfIndex(ym: YearMonth)
    requires ValidMonth(ym)
    ensures FromIndex(Index(ym)) == ym
  {
  }

  /** `date.setMonth(date.getMonth() + 1)` on the first day of a month: December rolls over to January. */
  function Next(ym: YearMonth): (n: YearMonth)
    requires ValidMonth(ym)
    ensures ValidMonth(n) && Index(n) == Index(ym) + 1
  {
    if ym.month == 12 then YearMonth(ym.year + 1, 1) else YearMonth(ym.year, ym.month + 1)
  }

  /** `${d.getFullYear()}-${String(d.getMonth() + 1).padStart(2, '0')}`. */
  function MonthString(ym: YearMonth): string {
    IntToString(ym.year) + "-" + Pad2(ym.month)
  }

  lemma ThreeParts(a: string, b: string, c: string)
    ensures (a + b + c)[..|a|] == a
    ensures (a + b + c)[|a| + |b|..] == c
    ensures |a + b + c| == |a| + |b| + |c|
  {
  }

  /** For a four-digit year, the formatted month is shape-valid and parses back to itself. */
  lemma MonthStringRoundTrip(ym: YearMonth)
    requires ValidMonth(ym) && 1000 <= ym.year <= 9999
    ensures MonthShape(MonthString(ym)) && ParseYearMonth(MonthString(ym)) == ym
  {
    var y, p := IntToString(ym.year), Pad2(ym.month);
    NatToStringWidth(ym.year);
    Pad2TwoDigits(ym.month);
    assert |y| == 4 && DigitsValue(y) == ym.year;
    ThreeParts(y, "-", p);
    var s := y + "-" + p;
    assert s == MonthString(ym);
    assert s[..4] == y && s[5..] == p && s[4] == '-';
  }

  /** Different real months are formatted differently, whatever their years. */
  lemma MonthStringInjective(a: YearMonth, b: YearMonth)
    requires ValidMonth(a) && ValidMonth(b)
    requires MonthString(a) == MonthString(b)
    ensures a == b
  {
    var ya, pa := IntToString(a.year), Pad2(a.month);
    var yb, pb := IntToString(b.year), Pad2(b.month);
    Pad2TwoDigits(a.month);
    Pad2TwoDigits(b.month);
    ThreeParts(ya, "-", pa);
    ThreeParts(yb, "-", pb);
    var s := ya + "-" + pa;
    assert s == MonthString(a) == yb + "-" + pb;
    assert |ya| == |yb|;
    assert ya == s[..|ya|] == yb;
    assert pa == s[|ya| + 1..] == pb;
    IntToStringInjective(a.year, b.year);
  }

  // ---------------------------------------------------------------- the clock

  /** A reading of the clock: the UTC month it falls in and the milliseconds since that month's first instant. */
  datatype Instant = Instant(ym: YearMonth, elapsed: nat)

  /** `new Date(month + '-01') < now`: the first instant (UTC) of month `ym` lies before `now`. */
  predicate FirstInstantBefore(ym: YearMonth, now: Instant) {
    Index(ym) < Index(now.ym) || (Index(ym) == Index(now.ym) && now.elapsed > 0)
  }

  /** The month `now` falls in counts as already begun, except at its very first millisecond. */
  lemma CurrentMonthHasBegun(now: Instant)
    ensures FirstInstantBefore(now.ym, now) <==> now.elapsed > 0
  {
  }

  /** Only months after the current one are certainly not before `now`. */
  lemma LaterMonthsNotBefore(ym: YearMonth, now: Instant)
    ensures Index(ym) > Index(now.ym) ==> !FirstInstantBefore(ym, now)
    ensures Index(ym) < Index(now.ym) ==> FirstInstantBefore(ym, now)
  {
  }

  // ---------------------------------------------------------------- month spans

  /** The length the month walk's safety check compares against, after pushing. */
  const MonthCap := 24

  /** One more than the cap: the check runs after the push, so the walk stops at 25 months. */
  function SpanLength(start: YearMonth, last: YearMonth): nat {
    var n := Index(last) - Index(start) + 1;
    if n <= 0 then 0 else if n > MonthCap + 1 then MonthCap + 1 else n
  }

  /** The month `k` steps after `start`. */
  function MonthAfter(start: YearMonth, k: int): (ym: YearMonth)
    ensures ValidMonth(ym) && Index(ym) == Index(start) + k
  {
    FromIndex(Index(start) + k)
  }

  /** Real months with the same index are the same month. */
  lemma IndexInjective(a: YearMonth, b: YearMonth)
    requires ValidMonth(a) && ValidMonth(b) && Index(a) == Index(b)
    ensures a == b
  {
    FromIndexOfIndex(a);
    FromIndexOfIndex(b);
  }

  /** One step further is the next calendar month. */
  lemma MonthAfterNext(start: YearMonth, k: int)
    ensures MonthAfter(start, k + 1) == Next(MonthAfter(start, k))
  {
    IndexInjective(MonthAfter(start, k + 1), Next(MonthAfter(start, k)));
  }

  /** The consecutive months from `start` to `last` inclusive, cut off after the first 25. */
  function MonthSpan(start: YearMonth, last: YearMonth): (span: seq<YearMonth>)
    ensures |span| == SpanLength(start, last)
    ensures forall k :: 0 <= k < |span| ==> span[k] == MonthAfter(start, k)
  {
    seq(SpanLength(start, last), k => MonthAfter(start, k))
  }

  /** A span begins at `start`, steps one calendar month at a time and never exceeds 25 months. */
  lemma MonthSpanSteps(start: YearMonth, last: YearMonth)
    requires ValidMonth(start)
    ensures |MonthSpan(start, last)| <= MonthCap + 1
    ensures |MonthSpan(start, last)| > 0 ==> MonthSpan(start, last)[0] == start
    ensures forall k :: 0 <= k < |MonthSpan(start, last)| - 1 ==>
              MonthSpan(start, last)[k + 1] == Next(MonthSpan(start, last)[k])
  {
    var span := MonthSpan(start, last);
    FromIndexOfIndex(start);
    forall k | 0 <= k < |span| - 1
      ensures span[k + 1] == Next(span[k])
    {
      FromIndexOfIndex(Next(span[k]));
    }
  }

  /** A span holds real months between its bounds, in strictly increasing order. */
  lemma MonthSpanOrdered(start: YearMonth, last: YearMonth)
    ensures forall k :: 0 <= k < |MonthSpan(start, last)| ==>
              ValidMonth(MonthSpan(start, last)[k]) &&
              Index(start) <= Index(MonthSpan(start, last)[k]) <= Index(last)
    ensures forall i, j :: 0 <= i < j < |MonthSpan(start, last)| ==>
              Index(MonthSpan(start, last)[i]) < Index(MonthSpan(start, last)[j])
  {
  }

  /** A span is empty exactly when `last` comes before `start`, and it reaches `last` when that is at most 25 months away. */
  lemma MonthSpanBounds(start: YearMonth, last: YearMonth)
    requires ValidMonth(last)
    ensures MonthSpan(start, last) == [] <==> Index(last) < Index(start)
    ensures 0 <= Index(last) - Index(start) <= MonthCap ==>
              |MonthSpan(start, last)| == Index(last) - Index(start) + 1 &&
              MonthSpan(start, last)[|MonthSpan(start, last)| - 1] == last
    ensures Index(last) - Index(start) >= MonthCap ==> |MonthSpan(start, last)| == MonthCap + 1
  {
    FromIndexOfIndex(last);
  }
}
