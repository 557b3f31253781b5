/**
 * Calendar and age arithmetic of the age picker (`DateHelper`).
 *
 * The source reads "now" through a function injected at construction and
 * never changes it; here "now" is an explicit `Date` argument, so every
 * member is a pure function of its inputs.
 */
module DateHelper {
  import opened Results

  const DaysOutOfRangeMessage := "days must be between 1 and 31 inclusive."
  const MonthOutOfRangeMessage := "monthNumber must be between 1 and 12."

  /** A moment as a JavaScript `Date` reports it: full year, 0-based month, day of month. */
  datatype Date = Date(year: int, month0: int, day: int)

  /** The twelve month numbers 1..12, ascending (the source's `allMonths`). */
  const AllMonths: seq<int> := MonthRange(12)

  /** The numbers 1..n in order. */
  function MonthRange(n: nat): seq<int>
  {
    seq(n, i => i + 1)
  }

  // ---------------------------------------------------------------------------
  // Leap years
  // ---------------------------------------------------------------------------

  /** JavaScript's `%`: the remainder takes the sign of the dividend (truncating division). */
  function JsRemainder(a: int, b: int): (r: int)
    requires b > 0
    ensures -b < r < b
    ensures (a - r) % b == 0
    ensures a >= 0 ==> 0 <= r
    ensures a < 0 ==> r <= 0
  {
    if a >= 0 then
      TruncatedRemainderOfNonNegative(a, b);
      a % b
    else
      TruncatedRemainderOfNegative(a, b);
      -((-a) % b)
  }

  lemma TruncatedRemainderOfNonNegative(a: int, b: int)
    requires b > 0
    ensures (a - a % b) % b == 0
  {
    var q := a / b;
    assert a - a % b == b * q;
    MultipleHasNoRemainder(b, q);
  }

  lemma TruncatedRemainderOfNegative(a: int, b: int)
    requires b > 0
    ensures (a + (-a) % b) % b == 0
  {
    var q := (-a) / b;
    assert -a == b * q + (-a) % b;
    assert a + (-a) % b == b * -q;
    MultipleHasNoRemainder(b, -q);
  }

  /** A multiple of `b` leaves no remainder. */
  lemma MultipleHasNoRemainder(b: int, k: int)
    requires b > 0
    ensures (b * k) % b == 0
  {
    var t := k - (b * k) / b;
    assert b * t == (b * k) % b;
  }

  /** `isLeapYear`, with the source's JavaScript remainder. It is the Gregorian
      rule with mathematical divisibility, negative years included. */
  predicate IsLeapYear(year: int)
    ensures IsLeapYear(year) <==> (year % 4 == 0 && year % 100 != 0) || year % 400 == 0
  {
    DivisibleByFourEitherSign(year);
    DivisibleByHundredEitherSign(year);
    DivisibleByFourHundredEitherSign(year);
    (JsRemainder(year, 4) == 0 && JsRemainder(year, 100) != 0) || JsRemainder(year, 400) == 0
  }

  lemma DivisibleByFourEitherSign(a: int)
    ensures (-a) % 4 == 0 <==> a % 4 == 0
  {
  }

  lemma DivisibleByHundredEitherSign(a: int)
    ensures (-a) % 100 == 0 <==> a % 100 == 0
  {
  }

  lemma DivisibleByFourHundredEitherSign(a: int)
    ensures (-a) % 400 == 0 <==> a % 400 == 0
  {
  }

  /** The Gregorian calendar repeats every 400 years. */
  lemma LeapYearPeriod(year: int)
    ensures IsLeapYear(year + 400) == IsLeapYear(year)
  {
  }

  // ---------------------------------------------------------------------------
  // Month lengths
  // ---------------------------------------------------------------------------

  /** `getDaysInMonth`: the length of a month, February depending on the year. */
  function GetDaysInMonth(monthNumber: int, year: int): (r: Result<int>)
    ensures r.Ok? <==> 1 <= monthNumber <= 12
    ensures r.Err? ==> r.message == MonthOutOfRangeMessage
    ensures r.Ok? ==> 28 <= r.value <= 31
    ensures monthNumber == 2 ==> (r == Ok(29) <==> IsLeapYear(year)) && (r == Ok(28) <==> !IsLeapYear(year))
  {
    match monthNumber
    case 1 => Ok(31)
    case 2 => Ok(if IsLeapYear(year) then 29 else 28)
    case 3 => Ok(31)
    case 4 => Ok(30)
    case 5 => Ok(31)
    case 6 => Ok(30)
    case 7 => Ok(31)
    case 8 => Ok(31)
    case 9 => Ok(30)
    case 10 => Ok(31)
    case 11 => Ok(30)
    case 12 => Ok(31)
    case _ => Err(MonthOutOfRangeMessage)
  }

  /** Only February's length depends on the year. */
  lemma MonthLengthIndependentOfYear(monthNumber: int, year1: int, year2: int)
    requires monthNumber != 2
    ensures GetDaysInMonth(monthNumber, year1) == GetDaysInMonth(monthNumber, year2)
  {
  }

  /** Total length of the months `1..upTo` of `year`. */
  function DaysThroughMonth(upTo: nat, year: int): nat
    requires upTo <= 12
  {
    if upTo == 0 then 0 else DaysThroughMonth(upTo - 1, year) + GetDaysInMonth(upTo, year).value
  }

  /** The month table adds up to a year of 365 days, or 366 in a leap year. */
  lemma {:induction false} MonthTableAddsUpToYear(year: int)
    ensures DaysThroughMonth(12, year) == if IsLeapYear(year) then 366 else 365
  {
    assert DaysThroughMonth(1, year) == 31;
    assert DaysThroughMonth(2, year) == if IsLeapYear(year) then 60 else 59;
    var feb := DaysThroughMonth(2, year);
    assert DaysThroughMonth(3, year) == feb + 31;
    assert DaysThroughMonth(4, year) == feb + 61;
    assert DaysThroughMonth(5, year) == feb + 92;
    assert DaysThroughMonth(6, year) == feb + 122;
    assert DaysThroughMonth(7, year) == feb + 153;
    assert DaysThroughMonth(8, year) == feb + 184;
    assert DaysThroughMonth(9, year) == feb + 214;
    assert DaysThroughMonth(10, year) == feb + 245;
    assert DaysThroughMonth(11, year) == feb + 275;
  }

  // ---------------------------------------------------------------------------
  // Months that can hold a given day
  // ---------------------------------------------------------------------------

  /** `s` is in strictly ascending order. */
  predicate Ascending(s: seq<int>)
  {
    forall i, j | 0 <= i < j < |s| :: s[i] < s[j]
  }

  /** `Array.prototype.filter` on a sequence of numbers. */
  function Filter(s: seq<int>, p: int -> bool): (r: seq<int>)
  {
    if s == [] then [] else (if p(s[0]) then [s[0]] else []) + Filter(s[1..], p)
  }

  /** Filtering keeps exactly the elements that satisfy the predicate. */
  lemma {:induction false} FilterMembers(s: seq<int>, p: int -> bool)
    ensures forall x :: x in Filter(s, p) <==> x in s && p(x)
  {
    if s != [] {
      FilterMembers(s[1..], p);
      assert s == [s[0]] + s[1..];
    }
  }

  /** Filtering keeps the order of what it keeps. */
  lemma {:induction false} FilterAscending(s: seq<int>, p: int -> bool)
    requires Ascending(s)
    ensures Ascending(Filter(s, p))
  {
    if s != [] {
      var rest := Filter(s[1..], p);
      var r := Filter(s, p);
      FilterAscending(s[1..], p);
      FilterMembers(s[1..], p);
      assert forall i | 1 <= i < |s| :: s[0] < s[i];
      forall i, j | 0 <= i < j < |r| ensures r[i] < r[j] {
        if p(s[0]) && i == 0 {
          assert r[j] in rest;
        } else if p(s[0]) {
          assert r[i] == rest[i - 1] && r[j] == rest[j - 1];
        } else {
          assert r[i] == rest[i] && r[j] == rest[j];
        }
      }
    }
  }

  /** Filtering with a predicate that holds throughout keeps everything. */
  lemma {:induction false} FilterKeepsAll(s: seq<int>, p: int -> bool)
    requires forall i | 0 <= i < |s| :: p(s[i])
    ensures Filter(s, p) == s
  {
    if s != [] {
      assert forall i | 0 <= i < |s| - 1 :: s[1..][i] == s[i + 1];
      FilterKeepsAll(s[1..], p);
      assert p(s[0]);
      assert s == [s[0]] + s[1..];
    }
  }

  /** Filtering depends only on the predicate's values on the sequence. */
  lemma {:induction false} FilterAgrees(s: seq<int>, p: int -> bool, q: int -> bool)
    requires forall i | 0 <= i < |s| :: p(s[i]) == q(s[i])
    ensures Filter(s, p) == Filter(s, q)
  {
    if s != [] {
      assert forall i | 0 <= i < |s| - 1 :: s[1..][i] == s[i + 1];
      FilterAgrees(s[1..], p, q);
      assert p(s[0]) == q(s[0]);
    }
  }

  /** The filter the source applies for day 30 (and day 29 outside leap years). */
  predicate NotFebruary(x: int)
  {
    x != 2
  }

  /** The filter the source applies for day 31. */
  predicate HasThirtyOneDays(x: int)
  {
    x != 2 && x != 4 && x != 6 && x != 9 && x != 11
  }

  /** `getAvailableMonthNumbers`: the months that have a day numbered `days` in `year`. */
  function GetAvailableMonthNumbers(days: int, year: int): (r: Result<seq<int>>)
    ensures r.Ok? <==> 1 <= days <= 31
    ensures r.Err? ==> r.message == DaysOutOfRangeMessage
  {
    if (1 <= days <= 28) || (IsLeapYear(year) && days == 29) then
      Ok(AllMonths)
    else if days == 30 || (!IsLeapYear(year) && days == 29) then
      Ok(Filter(AllMonths, NotFebruary))
    else if days == 31 then
      Ok(Filter(AllMonths, HasThirtyOneDays))
    else
      Err(DaysOutOfRangeMessage)
  }

  /** Month `m` of `year` has at least `days` days. */
  predicate HasDay(m: int, year: int, days: int)
  {
    GetDaysInMonth(m, year).Ok? && GetDaysInMonth(m, year).value >= days
  }

  /** Two ascending sequences with the same elements are equal. */
  lemma {:induction false} AscendingDeterminedByElements(s: seq<int>, t: seq<int>)
    requires Ascending(s) && Ascending(t)
    requires forall x :: x in s <==> x in t
    ensures s == t
  {
    assert |s| == 0 || s[0] in s;
    assert |t| == 0 || t[0] in t;
    if s != [] && t != [] {
      assert s[0] in s && t[0] in t;
      var k :| 0 <= k < |t| && t[k] == s[0];
      var l :| 0 <= l < |s| && s[l] == t[0];
      assert t[0] <= t[k] && s[0] <= s[l];
      forall x ensures x in s[1..] <==> x in t[1..] {
        if x in s[1..] { assert x in s && x != s[0]; }
        if x in t[1..] { assert x in t && x != t[0]; }
      }
      AscendingDeterminedByElements(s[1..], t[1..]);
      assert s == [s[0]] + s[1..];
      assert t == [t[0]] + t[1..];
    }
  }

  /** The cross-function property: for every valid day number the result is
      exactly the months long enough to hold that day, in ascending order. */
  lemma AvailableMonthsAreTheLongEnoughMonths(days: int, year: int)
    requires 1 <= days <= 31
    ensures GetAvailableMonthNumbers(days, year) == Ok(Filter(AllMonths, m => HasDay(m, year, days)))
  {
    var longEnough := m => HasDay(m, year, days);
    if (1 <= days <= 28) || (IsLeapYear(year) && days == 29) {
      forall i | 0 <= i < |AllMonths| ensures longEnough(AllMonths[i]) {
        assert GetDaysInMonth(AllMonths[i], year).value >= 28;
      }
      FilterKeepsAll(AllMonths, longEnough);
    } else if days == 30 || days == 29 {
      forall i | 0 <= i < |AllMonths| ensures longEnough(AllMonths[i]) == (AllMonths[i] != 2) {
        assert GetDaysInMonth(AllMonths[i], year).value >= 30 || AllMonths[i] == 2;
      }
      FilterAgrees(AllMonths, longEnough, NotFebruary);
    } else {
      forall i | 0 <= i < |AllMonths|
        ensures var m := AllMonths[i]; longEnough(m) == (m != 2 && m != 4 && m != 6 && m != 9 && m != 11)
      {
      }
      FilterAgrees(AllMonths, longEnough, HasThirtyOneDays);
    }
  }

  /** Comparing neighbours suffices to show a sequence ascending. */
  lemma {:induction false} AscendingFromNeighbours(s: seq<int>)
    requires forall i | 0 <= i < |s| - 1 :: s[i] < s[i + 1]
    ensures Ascending(s)
  {
    if |s| > 1 {
      AscendingFromNeighbours(s[1..]);
      forall j | 1 <= j < |s| ensures s[0] < s[j] {
        assert s[1..][j - 1] == s[j];
        assert j == 1 || s[1..][0] < s[1..][j - 1];
      }
    }
  }

  /** `allMonths` is ascending and holds exactly 1..12. */
  lemma AllMonthsAreTheMonthNumbers()
    ensures Ascending(AllMonths)
    ensures forall m :: m in AllMonths <==> 1 <= m <= 12
  {
    AscendingFromNeighbours(AllMonths);
    forall m ensures m in AllMonths <==> 1 <= m <= 12 {
      if 1 <= m <= 12 {
        assert AllMonths[m - 1] == m;
      }
    }
  }

  /** Filtering `allMonths` gives the ascending list of the months 1..12 that satisfy `p`. */
  lemma FilterAllMonths(p: int -> bool, t: seq<int>)
    requires forall i | 0 <= i < |t| - 1 :: t[i] < t[i + 1]
    requires forall x :: x in t <==> 1 <= x <= 12 && p(x)
    ensures Filter(AllMonths, p) == t
  {
    AllMonthsAreTheMonthNumbers();
    FilterAscending(AllMonths, p);
    FilterMembers(AllMonths, p);
    AscendingFromNeighbours(t);
    AscendingDeterminedByElements(Filter(AllMonths, p), t);
  }

  /** The months without February. */
  lemma FilterOutFebruary()
    ensures Filter(AllMonths, NotFebruary) == [1, 3, 4, 5, 6, 7, 8, 9, 10, 11, 12]
  {
    FilterAllMonths(NotFebruary, [1, 3, 4, 5, 6, 7, 8, 9, 10, 11, 12]);
  }

  /** The seven 31-day months. */
  lemma FilterOutShortMonths()
    ensures Filter(AllMonths, HasThirtyOneDays) == [1, 3, 5, 7, 8, 10, 12]
  {
    FilterAllMonths(HasThirtyOneDays, [1, 3, 5, 7, 8, 10, 12]);
  }

  /** For every valid day number the result is ascending and holds exactly the
      months with at least that many days in `year`. */
  lemma AvailableMonthsCharacterised(days: int, year: int)
    requires 1 <= days <= 31
    ensures var r := GetAvailableMonthNumbers(days, year).value;
            Ascending(r) && forall m :: m in r <==> 1 <= m <= 12 && HasDay(m, year, days)
  {
    var longEnough := m => HasDay(m, year, days);
    var r := Filter(AllMonths, longEnough);
    AvailableMonthsAreTheLongEnoughMonths(days, year);
    assert GetAvailableMonthNumbers(days, year).value == r;
    AllMonthsAreTheMonthNumbers();
    FilterAscending(AllMonths, longEnough);
    FilterMembers(AllMonths, longEnough);
  }

  /** That characterisation pins the result down: any ascending list of exactly
      those months is the one returned. */
  lemma AvailableMonthsUnique(days: int, year: int, s: seq<int>)
    requires 1 <= days <= 31
    requires Ascending(s)
    requires forall m :: m in s <==> 1 <= m <= 12 && HasDay(m, year, days)
    ensures GetAvailableMonthNumbers(days, year) == Ok(s)
  {
    AvailableMonthsCharacterised(days, year);
    AscendingDeterminedByElements(s, GetAvailableMonthNumbers(days, year).value);
  }

  /** The listed cases: every month for days 1-28, all but February for day 30
      (and day 29 outside leap years), the seven long months for day 31. */
  lemma AvailableMonthsByDay(days: int, year: int)
    ensures 1 <= days <= 28 ==> GetAvailableMonthNumbers(days, year) == Ok(AllMonths)
    ensures days == 29 ==>
              GetAvailableMonthNumbers(days, year) ==
              Ok(if IsLeapYear(year) then AllMonths else [1, 3, 4, 5, 6, 7, 8, 9, 10, 11, 12])
    ensures days == 30 ==> GetAvailableMonthNumbers(days, year) == Ok([1, 3, 4, 5, 6, 7, 8, 9, 10, 11, 12])
    ensures days == 31 ==> GetAvailableMonthNumbers(days, year) == Ok([1, 3, 5, 7, 8, 10, 12])
  {
    FilterOutFebruary();
    FilterOutShortMonths();
  }

  // ---------------------------------------------------------------------------
  // Two-digit years and age
  // ---------------------------------------------------------------------------

  /** `getBirthYearForUserProvidedValue`: years 10-99 go to this century unless
      that lies after the current year, 0 is 2000, everything else is kept. */
  function GetBirthYearForUserProvidedValue(now: Date, birthYear: int): (r: int)
    ensures 10 <= birthYear <= 99 ==> r % 100 == birthYear && 1910 <= r <= 2099
    ensures 10 <= birthYear <= 99 ==> (r == 2000 + birthYear <==> 2000 + birthYear <= now.year)
    ensures birthYear == 0 ==> r == 2000
    ensures birthYear != 0 && !(10 <= birthYear <= 99) ==> r == birthYear
  {
    if 10 <= birthYear <= 99 then
      if 2000 + birthYear > now.year then 1900 + birthYear else 2000 + birthYear
    else if birthYear == 0 then
      2000
    else
      birthYear
  }

  /** Normalising an already normalised year changes nothing. */
  lemma BirthYearIdempotent(now: Date, birthYear: int)
    ensures var y := GetBirthYearForUserProvidedValue(now, birthYear);
            GetBirthYearForUserProvidedValue(now, y) == y
  {
  }

  /** For a current year in 1999..2109 a two-digit year becomes the most recent
      year with those last two digits that is not in the future. */
  lemma BirthYearIsLatestPastYear(now: Date, birthYear: int)
    requires 10 <= birthYear <= 99
    requires 1999 <= now.year <= 2109
    ensures var y := GetBirthYearForUserProvidedValue(now, birthYear);
            y % 100 == birthYear && y <= now.year < y + 100
  {
  }

  /** The birthday of (`birthMonth`, `birthDay`) is still ahead of `now` in `now`'s year. */
  predicate BeforeAnniversary(now: Date, birthMonth: int, birthDay: int)
  {
    now.month0 < birthMonth - 1 || (now.month0 == birthMonth - 1 && now.day < birthDay)
  }

  /** `calculateAge`: whole years from the (normalised) birth date to `now`. */
  function CalculateAge(now: Date, birthMonth: int, birthDay: int, userProvidedBirthYear: int): (age: int)
    ensures var diff := now.year - GetBirthYearForUserProvidedValue(now, userProvidedBirthYear);
            age == (if BeforeAnniversary(now, birthMonth, birthDay) then diff - 1 else diff)
  {
    var birthYear := GetBirthYearForUserProvidedValue(now, userProvidedBirthYear);
    var age := now.year - birthYear;
    var age := if now.month0 < birthMonth - 1 then age - 1 else age;
    var age := if birthMonth - 1 == now.month0 && now.day < birthDay then age - 1 else age;
    age
  }

  /** `a` is no later than `b`, comparing year, then month, then day. */
  predicate NotLater(a: Date, b: Date)
  {
    a.year < b.year ||
    (a.year == b.year && (a.month0 < b.month0 || (a.month0 == b.month0 && a.day <= b.day)))
  }

  /** Age never decreases as "now" moves forward (fixed normalised birth year). */
  lemma AgeMonotoneInNow(now1: Date, now2: Date, birthMonth: int, birthDay: int, birthYear: int)
    requires NotLater(now1, now2)
    requires GetBirthYearForUserProvidedValue(now1, birthYear) == GetBirthYearForUserProvidedValue(now2, birthYear)
    ensures CalculateAge(now1, birthMonth, birthDay, birthYear) <= CalculateAge(now2, birthMonth, birthDay, birthYear)
  {
  }

  /** Across the two-digit pivot the age is not monotone: a 1 January
      birthday in year 16 is read as 1916 on 31 December 2015 and as 2016
      one day later. */
  lemma AgeDropsAcrossPivot()
    ensures NotLater(Date(2015, 11, 31), Date(2016, 0, 1))
    ensures CalculateAge(Date(2015, 11, 31), 1, 1, 16) == 99
    ensures CalculateAge(Date(2016, 0, 1), 1, 1, 16) == 0
  {
  }

  /** The age goes up by exactly one from the day before the birthday to the
      birthday, within a month, across the end of a month, and across New Year
      for a year the two-digit rule leaves alone. */
  lemma AgeStepsOnAnniversary(year: int, birthMonth: int, birthDay: int, birthYear: int)
    requires 1 <= birthMonth <= 12 && 1 <= birthDay <= 31
    ensures var born := GetBirthYearForUserProvidedValue(Date(year, 0, 1), birthYear);
            CalculateAge(Date(year, birthMonth - 1, birthDay), birthMonth, birthDay, birthYear) == year - born &&
            (2 <= birthDay ==>
               CalculateAge(Date(year, birthMonth - 1, birthDay - 1), birthMonth, birthDay, birthYear) == year - born - 1) &&
            (2 <= birthMonth && birthDay == 1 ==>
               CalculateAge(Date(year, birthMonth - 2, GetDaysInMonth(birthMonth - 1, year).value), birthMonth, 1, birthYear)
               == year - born - 1)
    ensures birthMonth == 1 && birthDay == 1 && birthYear != 0 && !(10 <= birthYear <= 99) ==>
              CalculateAge(Date(year - 1, 11, 31), 1, 1, birthYear) == year - 1 - birthYear
  {
  }

  /** A two-digit year and the four-digit year it stands for give the same age. */
  lemma TwoDigitYearSameAge(now: Date, birthMonth: int, birthDay: int, birthYear: int)
    ensures CalculateAge(now, birthMonth, birthDay, birthYear) ==
            CalculateAge(now, birthMonth, birthDay, GetBirthYearForUserProvidedValue(now, birthYear))
  {
    BirthYearIdempotent(now, birthYear);
  }

  /** The worked cases with "now" fixed at 1 January 2016. */
  lemma AgeOnNewYear2016()
    ensures CalculateAge(Date(2016, 0, 1), 1, 1, 99) == 17
    ensures CalculateAge(Date(2016, 0, 1), 1, 1, 1999) == 17
    ensures CalculateAge(Date(2016, 0, 1), 1, 1, 0) == 16
    ensures CalculateAge(Date(2016, 0, 1), 1, 1, 50) == 66
    ensures CalculateAge(Date(2016, 0, 1), 7, 1, 2015) == 0
    ensures CalculateAge(Date(2016, 0, 1), 12, 31, 2010) == 5
    ensures CalculateAge(Date(2016, 0, 1), 1, 2, 2011) == 4
  {
  }
}
