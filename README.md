# age-picker in Dafny

A model of the two logic components of the `age-picker` form enhancer, with proofs about them.

- **`DateHelper`** (`date_helper.dfy`) holds the calendar and age arithmetic. It covers the leap-year rule, the month-length table and the months that can hold a given day number. It also covers the normalisation of two-digit birth years and the whole-years age. The source reads "now" through a function injected into the constructor. Here "now" is an explicit `Date(year, month0, day)` argument, so every member is a pure function; a call that reads the clock twice sees the same moment both times (see "## Left out").
- **`Picker`** (`picker.dfy`) holds the decision and masking logic of `AgePicker` with the DOM reduced to state. That state is:
  - the text of the input element;
  - the value of the hidden input;
  - two `<select>` elements, each a `Select` object. A `Select` owns an array of option records (text, value or the empty placeholder value, `disabled`, `hidden`) and a selected index.

  `AgePicker.New` is the constructor: it merges the configuration and validates it. `Create` builds the selects. Two loop methods mask the option arrays in place:
  - `UpdateDaySelectBasedOnMonthSelect`;
  - `UpdateMonthSelectBasedOnDaySelect`.

  The `keyup` and `change` listeners are methods that update the hidden value and the selects. Each of these methods is proved against a pure specification function:
  - `HiddenValue`;
  - `MaskDays`, with `DayLimit`;
  - `MaskMonths`, with `MonthAvailability`.

  Lemmas about those functions state what the user sees, for example which days remain visible after a month is chosen.
- `text.dfy` holds the string helpers:
  - the `/\d{4}/` test;
  - `startsWith`;
  - number-to-decimal-text conversion, proved to read back as the number (for negative numbers, a minus sign before the digits of the magnitude).
- `results.dfy` holds `Option`, `Result` and `Outcome`. A thrown `Error` becomes an `Err` or `Fail` carrying the source's message.

JavaScript's `%` truncates toward zero, so `isLeapYear` is modelled with an explicit `JsRemainder`. `IsLeapYear`'s contract proves it agrees with the mathematical rule for every integer year, negative ones included.

Behaviour of the code worth knowing:
- **Years 1-9:** the code maps only 0 to 2000 and returns 1-9 unchanged.
- **Two-digit pivot:** a two-digit birth year is read against the current year, so the age can drop as time passes. For a 1 January birthday in year 16 it is 99 on 31 December 2015 and 0 one day later (`DateHelper.AgeDropsAcrossPivot`).
- **Picker tables:** the picker's own month tables ignore leap years, and `_getAvailableMonthNumbers(29)` throws while a day lower than 1 is accepted. `Picker.AvailableMonthsVersusCalendar` states both differences.
- **`change` event:** the hidden input's `change` event is dispatched on every update, not only when the value changes.
- **Date text:** the code has no free-form or month-name date parsing; nothing of the kind is modelled.

## Model

| member | source | states |
|---|---|---|
| DateHelper.JsRemainder | src/date-helper.js:80 | JavaScript's `%` by a positive divisor: the result lies strictly between minus and plus the divisor, differs from the dividend by a multiple of the divisor, and takes the dividend's sign (non-negative for a non-negative dividend, non-positive for a negative one) |
| DateHelper.IsLeapYear | src/date-helper.js:79-81 | `isLeapYear` (with JavaScript's truncating `%`) holds exactly when the year is divisible by 4 and not by 100, or divisible by 400 |
| DateHelper.LeapYearPeriod | src/date-helper.js:79-81 | the leap-year rule repeats every 400 years |
| DateHelper.GetDaysInMonth | src/date-helper.js:58-76 | defined exactly for months 1..12, the error message otherwise; every length is 28..31; February is 29 exactly in leap years and 28 exactly otherwise |
| DateHelper.MonthLengthIndependentOfYear | src/date-helper.js:58-76 | every month but February has the same length in every year |
| DateHelper.MonthTableAddsUpToYear | src/date-helper.js:58-76 | the twelve month lengths add up to 366 in a leap year and 365 otherwise |
| DateHelper.AllMonthsAreTheMonthNumbers | src/date-helper.js:44 | `allMonths` is ascending and holds exactly 1..12 |
| DateHelper.FilterMembers | src/date-helper.js:50-52 | `filter` keeps exactly the elements satisfying the predicate |
| DateHelper.FilterAscending | src/date-helper.js:50-52 | `filter` keeps an ascending list ascending |
| DateHelper.GetAvailableMonthNumbers | src/date-helper.js:43-56 | succeeds exactly for days 1..31, otherwise fails with the source's message |
| DateHelper.AvailableMonthsAreTheLongEnoughMonths | src/date-helper.js:43-56 | for days 1..31 the result is `allMonths` filtered by "the month has at least that many days in the year" |
| DateHelper.AvailableMonthsCharacterised | src/date-helper.js:43-56 | for days 1..31 the result is ascending and holds exactly the months 1..12 that have that day in that year |
| DateHelper.AvailableMonthsUnique | src/date-helper.js:43-56 | any ascending list of exactly those months equals the result |
| DateHelper.AvailableMonthsByDay | src/date-helper.js:47-52 | days 1-28 give all twelve months; day 29 gives all in a leap year and all but February otherwise; day 30 all but February; day 31 exactly [1,3,5,7,8,10,12] |
| DateHelper.GetBirthYearForUserProvidedValue | src/date-helper.js:29-41 | 10..99 become 2000+y unless that is after the current year, else 1900+y (so the result ends in y and lies in 1910..2099); 0 becomes 2000; every other value is kept |
| DateHelper.BirthYearIdempotent | src/date-helper.js:29-41 | normalising a normalised year changes nothing |
| DateHelper.BirthYearIsLatestPastYear | src/date-helper.js:29-41 | for a current year 1999..2109, a two-digit year becomes the latest year with those last digits that is not in the future |
| DateHelper.CalculateAge | src/date-helper.js:7-26 | the age is the year difference to the normalised birth year, one less exactly when the birthday (month first, then day) is still ahead in the current year |
| DateHelper.AgeMonotoneInNow | src/date-helper.js:7-41 | the age never decreases as "now" moves forward, whenever the birth year normalises to the same year at both moments (always for years outside 10..99) |
| DateHelper.AgeDropsAcrossPivot | src/date-helper.js:29-41 | a 1 January birthday in year 16 gives age 99 on 31 December 2015 and age 0 one day later: across the two-digit pivot the age is not monotone |
| DateHelper.AgeStepsOnAnniversary | src/date-helper.js:15-23 | the age goes up by one from the day before the birthday to the birthday: within a month, from the last day of the previous month to a birthday on the 1st (any birth year), and from 31 December to a 1 January birthday for a birth year the two-digit rule leaves alone |
| DateHelper.TwoDigitYearSameAge | src/date-helper.js:8-15 | a two-digit year and the year it normalises to give the same age |
| DateHelper.AgeOnNewYear2016 | src/date-helper.js:7-41 | with now = 1 January 2016: years 99 and 1999 give 17, 0 gives 16, 50 gives 66, and the other worked birth dates give 0, 5 and 4 |
| Text.NatToString | src/age-picker.js:226-230 | the decimal text of a number is non-empty, all digits, has no leading zero, and reads back as the number |
| Text.IntToString | src/age-picker.js:114 | the text of an integer is non-empty; for a non-negative integer it is all digits and reads back as the integer; for a negative one it is `-` followed by digits that read back as the magnitude |
| Text.StartsWith | src/age-picker.js:23 | `startsWith` holds exactly when the string is the prefix followed by the rest of the string |
| Text.HasFourDigitRun | src/age-picker.js:80 | `/\d{4}/.test`: a string with a run of four digits has at least four characters |
| Text.FourDigitRunInContext | src/age-picker.js:108 | the test searches the whole text: surrounding characters never hide a run of four digits |
| Text.FourDigitRunExamples | src/age-picker.js:80 | "1990" and "born 1990!" pass the test; "101" and "12a45" do not |
| Picker.Assign | src/age-picker.js:19-21 | `Object.assign`: every supplied key replaces the target's value, every other key keeps it |
| Picker.MergedConfiguration | src/age-picker.js:3-21 | without a configuration the result is the defaults, with the container, month and day classes derived from the default prefix `age-picker` |
| Picker.MergeKeepsDefaults | src/age-picker.js:13-21 | after the merge each of the seven keys is the supplied value when present and its default otherwise; so the container, month and day classes stay derived from the default prefix even when `prefixClass` is overridden |
| Picker.ConstructorValidationExamples | src/age-picker.js:23-25 | the defaults and `data-test` are accepted, `test` is rejected, and supplying only `dataAttribute` keeps `prefixClass` at `age-picker` |
| Picker.AgePicker.New | src/age-picker.js:2-26 | the constructor succeeds exactly when the merged `dataAttribute` starts with `data-`, and then holds the merged configuration; otherwise it fails with the source's message |
| Picker.DaysInMonthNoLeap | src/age-picker.js:168-184 | defined exactly for months 1..12, failing with the source's message otherwise; every length is 28..31 |
| Picker.MonthTableIsCommonYearTable | src/age-picker.js:168-184 | the picker's month table equals `getDaysInMonth` in every common year, and in a leap year differs from it exactly at February |
| Picker.AvailableMonthNumbersNoLeap | src/age-picker.js:154-166 | succeeds exactly for days below 29, 30 and 31, otherwise fails with the source's message |
| Picker.AvailableMonthsVersusCalendar | src/age-picker.js:154-166 | in a common year it equals `getAvailableMonthNumbers` for days 1-28, 30 and 31; it throws for day 29 where the calendar gives all but February; it gives every month for days below 1 where the calendar throws |
| Picker.AvailableMeansLongEnough | src/age-picker.js:154-166 | a month is in the list for a valid day exactly when the picker's table gives it at least that many days |
| Picker.ShortMonthsByDay | src/age-picker.js:154-166 | the months too short for a day: none up to 28, February for 30, the five months 2, 4, 6, 9 and 11 for 31 |
| Picker.MonthOptions | src/age-picker.js:198-214 | the month select holds the "Month" placeholder with the empty value, then option i showing month name i with value i |
| Picker.DayOptions | src/age-picker.js:216-234 | the day select holds the "Day" placeholder with the empty value, then options 1..31 each showing and holding its day number |
| Picker.Select.constructor | src/age-picker.js:236-250 | a new select holds exactly the given options in a fresh array, with the first one selected |
| Picker.AgePicker.Create | src/age-picker.js:38-75 | a missing element fails with the source's message; otherwise a new field holds the element's text, an empty hidden value, and fresh month and day selects with the option lists above and their placeholders selected |
| Picker.DayLimit | src/age-picker.js:130-132 | no limit for the placeholder month, the month's length for months 1..12 |
| Picker.MaskDays | src/age-picker.js:126-137 | after masking, exactly the options whose day exceeds the limit are disabled and hidden, and text and values are unchanged |
| Picker.VisibleValuesUnderLimit | src/age-picker.js:126-137 | masking a select whose option i holds day i leaves exactly the days 1..limit visible |
| Picker.VisibleDaysAreTheMonthsDays | src/age-picker.js:126-137 | after choosing a month, the visible days are exactly 1..its length (31, 30 or 28 of them) |
| Picker.PlaceholderMonthShowsAllDays | src/age-picker.js:127-131 | with the placeholder month selected, no day stays disabled or hidden |
| Picker.AgePicker.UpdateDaySelectBasedOnMonthSelect | src/age-picker.js:126-137 | the day options become exactly the masked old options for the selected month's limit; for a non-zero month outside 1..12 the options are only reset and the source's error is returned |
| Picker.MonthAvailability | src/age-picker.js:144-146 | no restriction for the placeholder day; otherwise it succeeds exactly when `_getAvailableMonthNumbers` does |
| Picker.MaskMonths | src/age-picker.js:140-152 | after masking, exactly the valued options outside the list are disabled, the placeholder never is, and nothing else changes |
| Picker.DisabledMonthsForDay | src/age-picker.js:140-152 | after choosing a valid day, the disabled months of a twelve-month select are exactly the months too short for it |
| Picker.AgePicker.UpdateMonthSelectBasedOnDaySelect | src/age-picker.js:140-152 | the month options become exactly the masked old options for the selected day; for day 29 or above 31 the options are only re-enabled and the source's error is returned; the day select is untouched |
| Picker.GetAge | src/age-picker.js:187-196 | for every parsed birth date the age is the year difference, one less exactly when the birthday (month first, then day) is still ahead in the current year |
| Picker.GetAgeIsCalculateAge | src/age-picker.js:187-196 | `_getAge` on a parsed date equals `calculateAge` whenever the two-digit rule leaves the year alone |
| Picker.AgeText | src/age-picker.js:114 | the age written into the hidden input is never empty (a number, or `NaN` for an unparseable date) |
| Picker.HiddenValue | src/age-picker.js:105-121 | text without four consecutive digits is copied unchanged; with them, the value is empty exactly when the month or the day is unselected |
| Picker.DateString | src/age-picker.js:114 | the string handed to the date parser starts with the whole text and `/`; for non-negative month and day the rest is the month's digits, `/`, and the day's digits, each reading back as its number |
| Picker.HiddenValueIsCalculatedAge | src/age-picker.js:108-114 | with a year, a month and a day, and a parsed year of at least 100, the hidden value is the text of the age `calculateAge` gives |
| Picker.HiddenValueExamples | src/age-picker.js:105-121 | "5", "21" and "101" are copied; "1990" alone or with only a month gives the empty value |
| Picker.AgePicker.UpdateHiddenElementValue | src/age-picker.js:105-121 | the hidden input becomes `HiddenValue` of the current text and selections, and nothing else changes |
| Picker.AgePicker.OnKeyUp | src/age-picker.js:77-92 | without four consecutive digits both selects go back to their placeholders and the hidden value becomes the text; with them the selections are kept; the hidden value is recomputed |
| Picker.AgePicker.OnMonthChange | src/age-picker.js:94-97 | choosing a month recomputes the hidden value, then masks the day options for that month |
| Picker.AgePicker.OnDayChange | src/age-picker.js:99-102 | choosing a day recomputes the hidden value, then masks the month options for that day |

## Left out

- DOM construction and wiring are not modelled. This covers creating and inserting elements, the hidden input's `id`/`name`, clearing `element.name`, CSS classes, `style.visibility`, `addEventListener`, `dispatchEvent` of `change` and `init` with `querySelectorAll`. `Create` keeps only the state the logic reads.
- `defaultDomScope: document.body` is left out of `Configuration`; keys the source does not know are not modelled.
- The real clock (`new Date()`) is an explicit `now` argument. This also stands in for the `DateHelper` constructor's `nowFunction`. Time zones are not modelled.
- `new Date(dateString)` in `_getAge` is host-defined date parsing. It is the parameter `parse`, and `None` stands for an invalid date, written as `NaN`.
- JavaScript coercion is not modelled: years, months and days are integers. Non-numeric input (such as `isLeapYear('a_string_value')`) is not covered, nor is string-versus-number comparison of option values beyond the placeholder's empty value.
- DateHelper.CalculateAge: reads "now" once. The source reads the clock twice, once inside `getBirthYearForUserProvidedValue` (src/date-helper.js:31) and once at src/date-helper.js:11, so with the real clock a call spanning New Year can mix two years (first read 31 December 2016 maps 17 to 1917, second read gives 2017, age 100); the model gives the age for one consistent moment.
- The `change` listeners take the selected index as an argument. The browser's own selection behaviour, such as refusing disabled options, is not modelled.
- Behaviour the jest suite asserts but the source does not implement is not modelled. This covers month-name and free-text date parsing, `ageChanged` events, suppressing duplicate `change` events, and normalising 1 to 2001.
