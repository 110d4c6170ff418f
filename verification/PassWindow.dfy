/**
 * The validity window of a pass (`src/trv11/pass.ts`), over the proleptic Gregorian calendar that
 * `Date` uses. Days are counted from 1 January 1970, months from the start of year 0: month `m` of
 * year `y` is `12 * y + m`, with January as month 0.
 *
 * `Date.UTC` reads a year from 0 to 99 as 1900 to 1999. The window inherits that, and the theorems
 * say exactly for which issue dates it shows.
 */
module PassWindow {

  const DAY_MS: int := 86_400_000
  const INDIA_OFFSET_MS: int := 19_800_000
  const EPOCH_MONTH: int := 12 * 1970
  const MISREAD_MONTHS: int := 12 * 1900

  /* ---- the Gregorian calendar ---- */

  predicate IsLeap(year: int) {
    year % 4 == 0 && (year % 100 != 0 || year % 400 == 0)
  }

  /** Thirty days have September, April, June and November. */
  function LengthIn(m: int, leap: bool): (days: int)
    ensures 28 <= days <= 31
  {
    if m == 1 then (if leap then 29 else 28)
    else if m == 3 || m == 5 || m == 8 || m == 10 then 30
    else 31
  }

  function Length(month: int): (days: int)
    ensures 28 <= days <= 31
  {
    LengthIn(month % 12, IsLeap(month / 12))
  }

  function Gregorian(): (a: Almanac)
    ensures a.Valid() && forall month :: a.length(month) == Length(month)
  {
    Almanac(month => Length(month))
  }

  /* ---- the closed form that `Date` is defined by ---- */

  /** ECMAScript's DayFromYear. */
  function DayFromYear(year: int): int {
    365 * (year - 1970) + (year - 1969) / 4 - (year - 1901) / 100 + (year - 1601) / 400
  }

  function DayOfYear(m: int, leap: bool): int {
    (if m <= 0 then 0 else if m == 1 then 31 else if m == 2 then 59 else if m == 3 then 90
     else if m == 4 then 120 else if m == 5 then 151 else if m == 6 then 181 else if m == 7 then 212
     else if m == 8 then 243 else if m == 9 then 273 else if m == 10 then 304 else 334)
    + if leap && m >= 2 then 1 else 0
  }

  function Closed(month: int): int {
    DayFromYear(month / 12) + DayOfYear(month % 12, IsLeap(month / 12))
  }

  lemma EveryFourth(year: int)
    ensures (year + 1 - 1969) / 4 - (year - 1969) / 4 == if year % 4 == 0 then 1 else 0
  {
  }

  lemma EveryHundredth(year: int)
    ensures (year + 1 - 1901) / 100 - (year - 1901) / 100 == if year % 100 == 0 then 1 else 0
  {
  }

  lemma EveryFourHundredth(year: int)
    ensures (year + 1 - 1601) / 400 - (year - 1601) / 400 == if year % 400 == 0 then 1 else 0
    ensures year % 400 == 0 ==> year % 100 == 0 && year % 4 == 0
    ensures year % 100 == 0 ==> year % 4 == 0
  {
  }

  lemma YearLength(year: int)
    ensures DayFromYear(year + 1) - DayFromYear(year) == if IsLeap(year) then 366 else 365
  {
    EveryFourth(year);
    EveryHundredth(year);
    EveryFourHundredth(year);
  }

  lemma ClosedNext(month: int)
    ensures Closed(month + 1) == Closed(month) + Length(month)
  {
    var y, m := month / 12, month % 12;
    if m == 11 {
      assert (month + 1) / 12 == y + 1 && (month + 1) % 12 == 0;
      YearLength(y);
    } else {
      assert (month + 1) / 12 == y && (month + 1) % 12 == m + 1;
    }
  }

  lemma ClosedCounts(a: Almanac, first: int -> int)
    requires (forall m :: a.length(m) == Length(m)) && (forall m :: first(m) == Closed(m))
    ensures first(EPOCH_MONTH) == 0
    ensures forall m {:trigger a.length(m)} :: first(m + 1) == first(m) + a.length(m)
  {
    forall m {:trigger a.length(m)}
      ensures first(m + 1) == first(m) + a.length(m)
    {
      ClosedNext(m);
    }
  }

  /** Counting months gives the day numbers that ECMAScript computes. */
  lemma CountingIsClosed(a: Almanac, first: int -> int, month: int)
    requires (forall m :: a.length(m) == Length(m)) && (forall m :: first(m) == Closed(m))
    ensures a.Start(month) == Closed(month)
  {
    ClosedCounts(a, first);
    a.CountedBy(first, month);
  }

  /* ---- dates and instants ---- */

  /** What `getUTCFullYear`, `getUTCMonth` and `getUTCDate` report. */
  datatype Date = Date(year: int, month: int, day: int) {
    function Index(): int { 12 * year + month }
  }

  /** `Date.UTC` takes a two-digit year for one of the twentieth century. */
  function FullYear(year: int): int {
    if 0 <= year <= 99 then 1900 + year else year
  }

  /** Which day an instant falls on in India, and the instant of a midnight there. */
  function IstDay(ms: int): int {
    (ms + INDIA_OFFSET_MS) / DAY_MS
  }

  function Midnight(n: int): int {
    n * DAY_MS - INDIA_OFFSET_MS
  }

  lemma MidnightOrder(n: int, ms: int)
    ensures Midnight(n) <= ms <==> n <= IstDay(ms)
    ensures IstDay(Midnight(n)) == n
  {
  }

  lemma MidnightInUtc(n: int, ms: int)
    requires n == IstDay(ms)
    ensures Midnight(n) % 86_400_000 == 66_600_000 && Midnight(n) <= ms < Midnight(n) + 86_400_000
  {
    assert Midnight(n) == 86_400_000 * (n - 1) + 66_600_000;
  }

  datatype Window = Daily | Weekly | Monthly

  /** Both ends as instants, and the dates that `validFrom` and `validTo` print. */
  datatype Validity = Validity(fromMs: int, toMs: int, from: Date, to: Date)

  function TargetYear(c: Date): int {
    if c.month == 11 then c.year + 1 else c.year
  }

  function TargetMonth(c: Date): int {
    (c.month + 1) % 12
  }

  /** The month the end of a monthly window is reckoned from. */
  function TargetIndex(c: Date): int {
    12 * FullYear(TargetYear(c)) + TargetMonth(c)
  }

  /** The end is reckoned from a year that `Date.UTC` misreads. */
  predicate Displaced(c: Date, window: Window) {
    0 <= (if window.Monthly? then TargetYear(c) else c.year) <= 99
  }

  /** December of a year that is misread while the next is not, or the other way round. */
  predicate AcrossMisreadYears(c: Date) {
    c.month == 11 && (c.year == -1 || c.year == 99)
  }

  lemma TargetIs(c: Date)
    requires 0 <= c.month < 12
    ensures TargetIndex(c) == c.Index() + 1 + if Displaced(c, Monthly) then MISREAD_MONTHS else 0
    ensures !AcrossMisreadYears(c) <==> TargetIndex(c) == 12 * FullYear(c.year) + c.month + 1
    ensures 12 * TargetYear(c) + TargetMonth(c) == c.Index() + 1
  {
  }

  lemma SplitIndex(year: int, month: int)
    requires 0 <= month < 12
    ensures (12 * year + month) / 12 == year && (12 * year + month) % 12 == month
  {
  }

  /** A calendar, given by the lengths of its months. */
  datatype Almanac = Almanac(length: int -> int) {

    ghost predicate Valid() {
      forall month :: 28 <= length(month) <= 31
    }

    /** Only the second month of a year varies. */
    ghost predicate Regular() {
      forall month :: month % 12 != 1 ==> length(month) == LengthIn(month % 12, false)
    }

    /** The day number of the first of a month, counted month by month from the epoch. */
    function Start(month: int): int
      decreases if month >= EPOCH_MONTH then month - EPOCH_MONTH else EPOCH_MONTH - month
    {
      if month == EPOCH_MONTH then 0
      else if month > EPOCH_MONTH then Start(month - 1) + length(month - 1)
      else Start(month + 1) - length(month)
    }

    lemma Next(month: int)
      ensures Start(month + 1) == Start(month) + length(month)
    {
      assert month >= EPOCH_MONTH ==> Start(month + 1) == Start(month) + length(month);
    }

    /** There is one way to count. */
    lemma {:induction false} CountedBy(first: int -> int, month: int)
      requires first(EPOCH_MONTH) == 0
      requires forall m {:trigger length(m)} :: first(m + 1) == first(m) + length(m)
      ensures Start(month) == first(month)
      decreases if month >= EPOCH_MONTH then month - EPOCH_MONTH else EPOCH_MONTH - month
    {
      if month > EPOCH_MONTH {
        CountedBy(first, month - 1);
        assert first(month - 1 + 1) == first(month - 1) + length(month - 1);
      } else if month < EPOCH_MONTH {
        CountedBy(first, month + 1);
        assert first(month + 1) == first(month) + length(month);
      }
    }

    lemma {:induction false} MonthsApart(first: int, last: int)
      requires Valid() && first <= last
      ensures 28 * (last - first) <= Start(last) - Start(first) <= 31 * (last - first)
      decreases last - first
    {
      if first < last {
        Next(first);
        MonthsApart(first + 1, last);
      }
    }

    /* ---- reading a day ---- */

    ghost predicate Within(n: int, month: int) {
      Start(month) <= n < Start(month + 1)
    }

    lemma {:induction false} MonthExists(n: int, month: int)
      requires Valid()
      ensures exists r :: Within(n, r)
      decreases if Start(month) <= n then 0 else 1, if Start(month) <= n then n - Start(month) else Start(month) - n
    {
      if n < Start(month) {
        Next(month - 1);
        MonthExists(n, month - 1);
      } else {
        Next(month);
        if n < Start(month + 1) {
          assert Within(n, month);
        } else {
          MonthExists(n, month + 1);
        }
      }
    }

    /** The month a day falls in. */
    ghost function MonthOf(n: int): (r: int)
      requires Valid()
      ensures Within(n, r)
    {
      MonthExists(n, EPOCH_MONTH);
      var r :| Within(n, r);
      r
    }

    lemma MonthIs(n: int, month: int)
      requires Valid() && Within(n, month)
      ensures MonthOf(n) == month
    {
      var r := MonthOf(n);
      if r < month {
        MonthsApart(r + 1, month);
      } else if month < r {
        MonthsApart(month + 1, r);
      }
    }

    ghost function DateOf(n: int): (c: Date)
      requires Valid()
      ensures 0 <= c.month < 12 && 1 <= c.day <= length(c.Index())
      ensures c.Index() == MonthOf(n)
      ensures Start(c.Index()) + c.day - 1 == n
    {
      var month := MonthOf(n);
      Next(month);
      Date(month / 12, month % 12, n - Start(month) + 1)
    }

    lemma DateIs(c: Date)
      requires Valid() && 0 <= c.month < 12 && 1 <= c.day <= length(c.Index())
      ensures DateOf(Start(c.Index()) + c.day - 1) == c
    {
      Next(c.Index());
      MonthIs(Start(c.Index()) + c.day - 1, c.Index());
    }

    /* ---- the window ---- */

    /** `Date.UTC(year, month, day)`, as a day number; `month` and `day` may lie outside their ranges. */
    function Utc(year: int, month: int, day: int): int {
      Start(12 * FullYear(year) + month) + day - 1
    }

    /** `daysInMonth`: the date of day 0 of the next month. */
    ghost function DaysInMonth(year: int, month: int): (r: int)
      requires Valid()
      ensures r == length(12 * FullYear(year) + month)
    {
      Next(12 * FullYear(year) + month);
      MonthIs(Utc(year, month + 1, 0), 12 * FullYear(year) + month);
      DateOf(Utc(year, month + 1, 0)).day
    }

    /** The day numbers of the start and of the exclusive end. */
    function StartDay(c: Date): int {
      Utc(c.year, c.month, c.day)
    }

    ghost function EndDay(c: Date, window: Window): int
      requires Valid()
    {
      match window
      case Daily => Utc(c.year, c.month, c.day + 1)
      case Weekly => Utc(c.year, c.month, c.day + 7)
      case Monthly =>
        if c.day <= DaysInMonth(TargetYear(c), TargetMonth(c)) then Utc(TargetYear(c), TargetMonth(c), c.day)
        else Utc(TargetYear(c), TargetMonth(c) + 1, 1)
    }

    /** The date the pass is issued on, in India. */
    ghost function IssueDate(issued: int): Date
      requires Valid()
    {
      DateOf(IstDay(issued))
    }

    /** `passValidityWindow`. */
    ghost function ValidityOf(issued: int, window: Window): Validity
      requires Valid()
    {
      var c := IssueDate(issued);
      var from, to := Midnight(StartDay(c)), Midnight(EndDay(c, window));
      Validity(from, to, DateOf(IstDay(from)), DateOf(IstDay(to)))
    }

    /* ---- what the design promises, without the two-digit years ---- */

    /** One day, seven days, or the same day next month capped at the end of that month. */
    ghost function ProperEnd(n: int, window: Window): int
      requires Valid()
    {
      match window
      case Daily => n + 1
      case Weekly => n + 7
      case Monthly => SameDay(n, MonthOf(n))
    }

    function SameDay(n: int, month: int): int {
      var sameDay := Start(month + 1) + (n - Start(month));
      if sameDay <= Start(month + 2) then sameDay else Start(month + 2)
    }

    /** Where a monthly window ends when it is reckoned from `target`. */
    function LandingIn(target: int, day: int): int {
      if day <= length(target) then Start(target) + day - 1 else Start(target + 1)
    }

    lemma MonthlyEnd(c: Date)
      requires Valid()
      ensures EndDay(c, Monthly) == LandingIn(TargetIndex(c), c.day)
    {
    }

    lemma LandingIsSameDay(month: int, day: int)
      ensures LandingIn(month + 1, day) == SameDay(Start(month) + day - 1, month)
    {
      Next(month + 1);
    }

    lemma LandingIsLate(month: int, target: int, day: int)
      requires Valid() && 1 <= day <= 31 && month <= target
      ensures LandingIn(target, day) >= Start(month) + day - 1 + 28 * (target - month) - 31
    {
      Next(target);
      MonthsApart(month, target);
    }

    lemma LandingIsEarly(month: int, target: int, day: int)
      requires Valid() && 1 <= day <= 31 && target < month
      ensures LandingIn(target, day) <= Start(month) - 28 * (month - target) + 31
    {
      Next(target);
      MonthsApart(target, month);
    }

    lemma MisreadStart(c: Date)
      requires Valid() && 0 <= c.year <= 99
      ensures StartDay(c) >= Start(c.Index()) + c.day - 1 + 28 * MISREAD_MONTHS
    {
      assert 12 * FullYear(c.year) + c.month == c.Index() + MISREAD_MONTHS;
      MonthsApart(c.Index(), c.Index() + MISREAD_MONTHS);
    }

    lemma ProperUnlessDisplaced(n: int, window: Window)
      requires Valid() && !Displaced(DateOf(n), window)
      ensures EndDay(DateOf(n), window) == ProperEnd(n, window)
    {
      var c := DateOf(n);
      if window.Monthly? {
        MonthlyEnd(c);
        TargetIs(c);
        LandingIsSameDay(c.Index(), c.day);
      }
    }

    /** A displaced end lies 1900 years too late, give or take the length of a month. */
    lemma DisplacedLandsLate(n: int, window: Window)
      requires Valid() && Displaced(DateOf(n), window)
      ensures EndDay(DateOf(n), window) >= n + 28 * MISREAD_MONTHS - 31
    {
      var c := DateOf(n);
      if window.Monthly? {
        MonthlyEnd(c);
        TargetIs(c);
        LandingIsLate(c.Index(), TargetIndex(c), c.day);
      } else {
        MisreadStart(c);
      }
    }

    lemma ProperEndBounds(n: int, window: Window)
      requires Valid()
      ensures n < ProperEnd(n, window) <= n + 31
    {
      var month := MonthOf(n);
      Next(month);
      Next(month + 1);
    }

    lemma ProperEndMonotone(n: int, later: int, window: Window)
      requires Valid() && n <= later
      ensures ProperEnd(n, window) <= ProperEnd(later, window)
    {
      if window.Monthly? {
        var month, month' := MonthOf(n), MonthOf(later);
        if month' < month {
          MonthsApart(month' + 1, month);
        } else if month < month' {
          MonthsApart(month + 2, month' + 1);
          MonthsApart(month' + 1, month' + 2);
        }
      }
    }

    /* ---- the theorems ---- */

    /** The issue instant lies in [from, to) exactly when its Indian year is not one of 0 to 99. */
    lemma IssueInsideWindow(issued: int, window: Window)
      requires Valid()
      ensures var v := ValidityOf(issued, window);
              v.fromMs <= issued < v.toMs <==> !(0 <= IssueDate(issued).year <= 99)
    {
      var n := IstDay(issued);
      var c := DateOf(n);
      MidnightOrder(StartDay(c), issued);
      MidnightOrder(EndDay(c, window), issued);
      if 0 <= c.year <= 99 {
        MisreadStart(c);
      } else if Displaced(c, window) {
        DisplacedLandsLate(n, window);
      } else {
        ProperUnlessDisplaced(n, window);
        ProperEndBounds(n, window);
      }
    }

    /** The window opens at the last 18:30 UTC not after the issue, which is midnight in India, unless the year is misread. */
    lemma OpensAtIndianMidnight(issued: int, window: Window)
      requires Valid() && !(0 <= IssueDate(issued).year <= 99)
      ensures var from := ValidityOf(issued, window).fromMs;
        from % 86_400_000 == 66_600_000 && from <= issued < from + 86_400_000
    {
      var n := IstDay(issued);
      assert StartDay(DateOf(n)) == n;
      MidnightInUtc(n, issued);
    }

    /** The days a window covers. */
    ghost function Days(c: Date, window: Window): int
      requires Valid()
    {
      EndDay(c, window) - StartDay(c)
    }

    /** The second month apart, a month is as long in one year as in another. */
    lemma SameLength(c: Date)
      requires Regular() && 0 <= c.month < 12
      ensures c.month == 1 ==> length(12 * FullYear(c.year) + c.month + 1) == 31
      ensures c.month != 1 ==> length(12 * FullYear(c.year) + c.month) == length(c.Index())
    {
      SplitIndex(FullYear(c.year), c.month);
      SplitIndex(c.year, c.month);
      if c.month == 1 {
        SplitIndex(FullYear(c.year), 2);
      }
    }

    lemma LandingDays(month: int, day: int)
      requires Valid() && (1 <= day <= length(month) || (1 <= day <= 31 && length(month + 1) == 31))
      ensures 28 <= LandingIn(month + 1, day) - (Start(month) + day - 1) <= 31
    {
      Next(month);
      Next(month + 1);
    }

    lemma MonthlyDays(c: Date)
      requires Valid() && Regular() && !AcrossMisreadYears(c)
      requires 0 <= c.month < 12 && 1 <= c.day <= length(c.Index())
      ensures 28 <= Days(c, Monthly) <= 31
    {
      var index := 12 * FullYear(c.year) + c.month;
      assert TargetIndex(c) == index + 1 by { TargetIs(c); }
      assert c.day <= length(index) || length(index + 1) == 31 by { SameLength(c); }
      MonthlyEnd(c);
      LandingDays(index, c.day);
      assert StartDay(c) == Start(index) + c.day - 1;
    }

    lemma MisreadDays(n: int)
      requires Valid() && AcrossMisreadYears(DateOf(n))
      ensures !(28 <= Days(DateOf(n), Monthly) <= 31)
    {
      var c := DateOf(n);
      var index := 12 * FullYear(c.year) + c.month;
      MonthlyEnd(c);
      if c.year == -1 {
        assert TargetIndex(c) == index + 1 + MISREAD_MONTHS;
        LandingIsLate(index, TargetIndex(c), c.day);
      } else {
        assert TargetIndex(c) == index + 1 - MISREAD_MONTHS;
        LandingIsEarly(index, TargetIndex(c), c.day);
      }
    }

    /**
     * A window is a whole number of Indian days: one, seven, or 28 to 31. The monthly one is so exactly
     * when December does not meet a year that is misread on one side only.
     */
    lemma WindowLength(issued: int, window: Window)
      requires Valid() && Regular()
      ensures var v := ValidityOf(issued, window); v.toMs - v.fromMs == Days(IssueDate(issued), window) * DAY_MS
      ensures window.Daily? ==> Days(IssueDate(issued), window) == 1
      ensures window.Weekly? ==> Days(IssueDate(issued), window) == 7
      ensures window.Monthly? ==>
                (28 <= Days(IssueDate(issued), window) <= 31 <==> !AcrossMisreadYears(IssueDate(issued)))
    {
      if window.Monthly? {
        if AcrossMisreadYears(IssueDate(issued)) {
          MisreadDays(IstDay(issued));
        } else {
          MonthlyDays(IssueDate(issued));
        }
      }
    }

    /** No later issue ends earlier. */
    ghost predicate NeverOvertaken(issued: int, window: Window)
      requires Valid()
    {
      forall later: int | issued <= later :: ValidityOf(issued, window).toMs <= ValidityOf(later, window).toMs
    }

    lemma EndAtLeastProper(n: int, window: Window)
      requires Valid()
      ensures EndDay(DateOf(n), window) >= ProperEnd(n, window)
    {
      if Displaced(DateOf(n), window) {
        DisplacedLandsLate(n, window);
        ProperEndBounds(n, window);
      } else {
        ProperUnlessDisplaced(n, window);
      }
    }

    lemma LaterIssueEndsNoEarlier(issued: int, later: int, window: Window)
      requires Valid() && issued <= later && !Displaced(IssueDate(issued), window)
      ensures ValidityOf(issued, window).toMs <= ValidityOf(later, window).toMs
    {
      var n, n' := IstDay(issued), IstDay(later);
      ProperUnlessDisplaced(n, window);
      ProperEndMonotone(n, n', window);
      EndAtLeastProper(n', window);
    }

    /** An end that lands in the twentieth century is overtaken by an issue a hundred years on. */
    lemma DisplacedIsOvertaken(issued: int, window: Window) returns (later: int)
      requires Valid() && Displaced(IssueDate(issued), window)
      ensures issued <= later && ValidityOf(later, window).toMs < ValidityOf(issued, window).toMs
    {
      var n := IstDay(issued);
      var c := DateOf(n);
      DisplacedLandsLate(n, window);
      var month := c.Index() + 1200;
      var day := Start(month);
      MonthsApart(c.Index() + 1, month);
      MonthsApart(c.Index(), month);
      Next(c.Index());
      later := Midnight(day);
      MidnightOrder(day, issued);
      MidnightOrder(day, later);
      DateIs(Date(c.year + 100, c.month, 1));
      ProperUnlessDisplaced(day, window);
      ProperEndBounds(day, window);
    }

    lemma MonotoneExactly(issued: int, window: Window)
      requires Valid()
      ensures NeverOvertaken(issued, window) <==> !Displaced(IssueDate(issued), window)
    {
      if Displaced(IssueDate(issued), window) {
        var later := DisplacedIsOvertaken(issued, window);
      } else {
        forall later: int | issued <= later
          ensures ValidityOf(issued, window).toMs <= ValidityOf(later, window).toMs
        {
          LaterIssueEndsNoEarlier(issued, later, window);
        }
      }
    }

    /** The date a monthly pass is documented to end on. */
    function DocumentedEnd(c: Date): Date {
      if c.day <= length(c.Index() + 1) then Date(TargetYear(c), TargetMonth(c), c.day)
      else Date(c.year, c.month + 2, 1)
    }

    lemma NotBeforeALongMonth(c: Date)
      requires Regular() && 0 <= c.month < 12 && length(c.Index() + 1) < c.day <= 31
      ensures c.month < 10
    {
      TargetIs(c);
      SplitIndex(TargetYear(c), TargetMonth(c));
    }

    lemma LandsOnTheSameDay(c: Date, target: Date)
      requires Valid() && 0 <= c.month < 12 && 1 <= c.day <= length(c.Index() + 1)
      requires target == Date(TargetYear(c), TargetMonth(c), c.day)
      ensures DateOf(LandingIn(c.Index() + 1, c.day)) == target
    {
      assert target.Index() == c.Index() + 1 by { TargetIs(c); }
      DateIs(target);
    }

    lemma LandsOnTheFirst(c: Date, target: Date)
      requires Valid() && 0 <= c.month < 10 && length(c.Index() + 1) < c.day
      requires target == Date(c.year, c.month + 2, 1)
      ensures DateOf(LandingIn(c.Index() + 1, c.day)) == target
    {
      assert target.Index() == c.Index() + 1 + 1;
      DateIs(target);
    }

    lemma LandsAsDocumented(c: Date)
      requires Valid() && Regular() && 0 <= c.month < 12 && 1 <= c.day <= 31
      ensures DateOf(LandingIn(c.Index() + 1, c.day)) == DocumentedEnd(c)
    {
      if c.day <= length(c.Index() + 1) {
        LandsOnTheSameDay(c, DocumentedEnd(c));
      } else {
        NotBeforeALongMonth(c);
        LandsOnTheFirst(c, DocumentedEnd(c));
      }
    }

    /** The printed dates name both ends, and the first is the issue date unless its year is misread. */
    lemma PrintedDates(issued: int, window: Window)
      requires Valid()
      ensures var v := ValidityOf(issued, window);
              && Midnight(Start(v.from.Index()) + v.from.day - 1) == v.fromMs
              && Midnight(Start(v.to.Index()) + v.to.day - 1) == v.toMs
              && (v.from == IssueDate(issued) <==> !(0 <= IssueDate(issued).year <= 99))
    {
      var c := IssueDate(issued);
      MidnightOrder(StartDay(c), issued);
      MidnightOrder(EndDay(c, window), issued);
      if 0 <= c.year <= 99 {
        MisreadStart(c);
      }
    }

    /** The documented end is never as much as three months away. */
    lemma DocumentedEndIsNear(c: Date, n: int)
      requires Valid() && Regular() && 0 <= c.month < 12 && 1 <= c.day <= length(c.Index()) && n == Start(c.Index()) + c.day - 1
      ensures LandingIn(c.Index() + 1, c.day) <= n + 62
    {
      Next(c.Index());
      Next(c.Index() + 1);
    }

    /** A monthly pass prints the documented end exactly when it is not reckoned from a misread year. */
    lemma PrintedEnd(issued: int)
      requires Valid() && Regular()
      ensures ValidityOf(issued, Monthly).to == DocumentedEnd(IssueDate(issued)) <==> !Displaced(IssueDate(issued), Monthly)
    {
      var c := IssueDate(issued);
      MidnightOrder(EndDay(c, Monthly), issued);
      LandsAsDocumented(c);
      if Displaced(c, Monthly) {
        DisplacedLandsLate(IstDay(issued), Monthly);
        DocumentedEndIsNear(c, IstDay(issued));
        assert EndDay(c, Monthly) != LandingIn(c.Index() + 1, c.day);
      } else {
        MonthlyEnd(c);
        TargetIs(c);
      }
    }

    /** Every law at once. */
    ghost predicate Lawful(issued: int, window: Window)
      requires Valid()
    {
      var v := ValidityOf(issued, window);
      var c := IssueDate(issued);
      && (v.fromMs <= issued < v.toMs <==> !(0 <= c.year <= 99))
      && v.toMs - v.fromMs == Days(c, window) * DAY_MS
      && (window.Daily? ==> Days(c, window) == 1)
      && (window.Weekly? ==> Days(c, window) == 7)
      && (window.Monthly? ==> (28 <= Days(c, window) <= 31 <==> !AcrossMisreadYears(c)))
      && (NeverOvertaken(issued, window) <==> !Displaced(c, window))
      && (window.Monthly? ==> (v.to == DocumentedEnd(c) <==> !Displaced(c, window)))
    }

    lemma WindowsAreLawful(issued: int, window: Window)
      requires Valid() && Regular()
      ensures Lawful(issued, window)
    {
      IssueInsideWindow(issued, window);
      WindowLength(issued, window);
      MonotoneExactly(issued, window);
      if window.Monthly? {
        PrintedEnd(issued);
      }
    }
  }

  /* ---- and for the Gregorian calendar ---- */

  lemma GregorianIsRegular()
    ensures Gregorian().Regular()
  {
  }

  /** The laws hold of the Gregorian calendar, for every instant and every kind of pass. */
  lemma GregorianWindows(issued: int, window: Window)
    ensures Gregorian().Lawful(issued, window)
  {
    GregorianIsRegular();
    Gregorian().WindowsAreLawful(issued, window);
  }

  /** The Gregorian months start where ECMAScript says. */
  lemma GregorianIsClosed(month: int)
    ensures Gregorian().Start(month) == Closed(month)
  {
    CountingIsClosed(Gregorian(), m => Closed(m), month);
  }

  /** A pass issued at noon on 1 January of the year 50 is not valid when it is issued. */
  lemma NotValidInTheYearFifty(a: Almanac, c: Date, issued: int)
    requires a.Valid() && c == Date(50, 0, 1)
    requires issued == Midnight(a.Start(c.Index())) + DAY_MS / 2
    ensures a.IssueDate(issued) == c
    ensures !(a.ValidityOf(issued, Daily).fromMs <= issued < a.ValidityOf(issued, Daily).toMs)
  {
    a.DateIs(c);
    assert IstDay(issued) == a.Start(c.Index());
    a.IssueInsideWindow(issued, Daily);
  }
}
