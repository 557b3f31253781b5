/**
 * The decision and option-masking logic of the `AgePicker` form enhancer.
 *
 * The DOM is reduced to what the logic reads and writes: the text typed into
 * the input element, the value of the hidden input, and two `<select>`
 * elements, each an array of option records with a selected index.  The
 * clock read by `_getAge` and the host's parsing of date strings
 * (`new Date(string)`) are parameters.
 */
module Picker {
  import opened Results
  import opened Text
  import DateHelper

  const DataAttributeMessage := "configuration dataAttribute must start with \"data-\"."
  const ElementMissingMessage := "element must be provided."

  const EnglishMonths: seq<string> := [
    "January", "February", "March", "April", "May", "June",
    "July", "August", "September", "October", "November", "December"
  ]

  // ---------------------------------------------------------------------------
  // Configuration
  // ---------------------------------------------------------------------------

  datatype I18n = I18n(months: seq<string>)

  /** The picker's configuration object (the DOM scope entry is not modelled). */
  datatype Configuration = Configuration(
    dataAttribute: string,
    prefixClass: string,
    selectClasses: seq<string>,
    i18n: I18n,
    containerClass: string,
    monthSelectClass: string,
    daySelectClass: string)

  /** A configuration object supplied by the caller: each key present or absent. */
  datatype Overrides = Overrides(
    dataAttribute: Option<string>,
    prefixClass: Option<string>,
    selectClasses: Option<seq<string>>,
    i18n: Option<I18n>,
    containerClass: Option<string>,
    monthSelectClass: Option<string>,
    daySelectClass: Option<string>)

  const NoOverrides := Overrides(None, None, None, None, None, None, None)

  function Pick<T>(supplied: Option<T>, current: T): T
  {
    if supplied.Some? then supplied.value else current
  }

  /** `Object.assign(target, source)`: every key the source has replaces the target's. */
  function Assign(target: Configuration, source: Overrides): (r: Configuration)
    ensures r.dataAttribute == if source.dataAttribute.Some? then source.dataAttribute.value else target.dataAttribute
    ensures r.prefixClass == if source.prefixClass.Some? then source.prefixClass.value else target.prefixClass
    ensures r.selectClasses == if source.selectClasses.Some? then source.selectClasses.value else target.selectClasses
    ensures r.i18n == if source.i18n.Some? then source.i18n.value else target.i18n
    ensures r.containerClass == if source.containerClass.Some? then source.containerClass.value else target.containerClass
    ensures r.monthSelectClass == if source.monthSelectClass.Some? then source.monthSelectClass.value else target.monthSelectClass
    ensures r.daySelectClass == if source.daySelectClass.Some? then source.daySelectClass.value else target.daySelectClass
  {
    Configuration(
      Pick(source.dataAttribute, target.dataAttribute),
      Pick(source.prefixClass, target.prefixClass),
      Pick(source.selectClasses, target.selectClasses),
      Pick(source.i18n, target.i18n),
      Pick(source.containerClass, target.containerClass),
      Pick(source.monthSelectClass, target.monthSelectClass),
      Pick(source.daySelectClass, target.daySelectClass))
  }

  /** The defaults, with the three class names derived from the default prefix. */
  const DefaultConfiguration := Configuration(
    "data-age-picker", "age-picker", [], I18n(EnglishMonths),
    "age-picker-container", "age-picker-month", "age-picker-day")

  /** The configuration the constructor ends with; `None` is a missing or null argument. */
  function MergedConfiguration(supplied: Option<Overrides>): (c: Configuration)
    ensures supplied.None? ==>
              c.dataAttribute == "data-age-picker" && c.prefixClass == "age-picker" && c.selectClasses == [] &&
              c.i18n.months == EnglishMonths && |c.i18n.months| == 12 &&
              c.containerClass == c.prefixClass + "-container" &&
              c.monthSelectClass == c.prefixClass + "-month" &&
              c.daySelectClass == c.prefixClass + "-day"
  {
    if supplied.Some? then Assign(DefaultConfiguration, supplied.value) else DefaultConfiguration
  }

  /** The constructor's check. */
  predicate AcceptsConfiguration(c: Configuration)
  {
    StartsWith(c.dataAttribute, "data-")
  }

  /** Supplied keys win, the others keep their defaults; the derived class names
      are fixed before the merge, so a new prefix alone does not change them. */
  lemma MergeKeepsDefaults(supplied: Overrides)
    ensures var c := MergedConfiguration(Some(supplied));
            c.dataAttribute == Pick(supplied.dataAttribute, "data-age-picker") &&
            c.prefixClass == Pick(supplied.prefixClass, "age-picker") &&
            c.selectClasses == Pick(supplied.selectClasses, []) &&
            c.i18n == Pick(supplied.i18n, I18n(EnglishMonths)) &&
            c.containerClass == Pick(supplied.containerClass, "age-picker-container") &&
            c.monthSelectClass == Pick(supplied.monthSelectClass, "age-picker-month") &&
            c.daySelectClass == Pick(supplied.daySelectClass, "age-picker-day")
  {
  }

  /** The constructor accepts the defaults and `data-test`, and rejects `test`. */
  lemma ConstructorValidationExamples()
    ensures AcceptsConfiguration(MergedConfiguration(None))
    ensures AcceptsConfiguration(MergedConfiguration(Some(NoOverrides)))
    ensures AcceptsConfiguration(MergedConfiguration(Some(NoOverrides.(dataAttribute := Some("data-test")))))
    ensures !AcceptsConfiguration(MergedConfiguration(Some(NoOverrides.(dataAttribute := Some("test")))))
    ensures MergedConfiguration(Some(NoOverrides.(dataAttribute := Some("data-test")))).prefixClass == "age-picker"
  {
    assert "data-age-picker"[..5] == "data-";
    assert "data-test"[..5] == "data-";
  }

  // ---------------------------------------------------------------------------
  // The picker's own calendar tables (no leap years)
  // ---------------------------------------------------------------------------

  /** `_getDaysInMonth`: month lengths with February always 28. */
  function DaysInMonthNoLeap(monthNumber: int): (r: Result<int>)
    ensures r.Ok? <==> 1 <= monthNumber <= 12
    ensures r.Err? ==> r.message == DateHelper.MonthOutOfRangeMessage
    ensures r.Ok? ==> 28 <= r.value <= 31
  {
    match monthNumber
    case 1 => Ok(31)
    case 2 => Ok(28)
    case 3 => Ok(31)
    case 4 => Ok(30)
    case 5 => Ok(31)
    case 6 => Ok(30)
    case 7 => Ok(31)
    case 8 => Ok(31)
    case 9 => Ok(30)
    case 10 => Ok(31)
    case 11 => Ok(30)
    case 12 => Ok(31)
    case _ => Err(DateHelper.MonthOutOfRangeMessage)
  }

  /** `_getAvailableMonthNumbers`: no lower bound, and day 29 is refused. */
  function AvailableMonthNumbersNoLeap(days: int): (r: Result<seq<int>>)
    ensures r.Ok? <==> days < 29 || days == 30 || days == 31
    ensures r.Err? ==> r.message == DateHelper.DaysOutOfRangeMessage
  {
    if days < 29 then Ok([1, 2, 3, 4, 5, 6, 7, 8, 9, 10, 11, 12])
    else if days == 30 then Ok([1, 3, 4, 5, 6, 7, 8, 9, 10, 11, 12])
    else if days == 31 then Ok([1, 3, 5, 7, 8, 10, 12])
    else Err(DateHelper.DaysOutOfRangeMessage)
  }

  /** The picker's month table is the calendar's in every common year, and in a
      leap year differs only in February. */
  lemma MonthTableIsCommonYearTable(monthNumber: int, year: int)
    ensures !DateHelper.IsLeapYear(year) ==> DaysInMonthNoLeap(monthNumber) == DateHelper.GetDaysInMonth(monthNumber, year)
    ensures DateHelper.IsLeapYear(year) ==>
              (DaysInMonthNoLeap(monthNumber) == DateHelper.GetDaysInMonth(monthNumber, year) <==> monthNumber != 2)
  {
  }

  /** Against the calendar's list in a common year: the same months for days
      1-28, 30 and 31; a throw for day 29, where the calendar gives all but
      February; every month for days below 1, where the calendar throws. */
  lemma AvailableMonthsVersusCalendar(days: int, year: int)
    requires !DateHelper.IsLeapYear(year)
    ensures (1 <= days <= 28 || days == 30 || days == 31) ==>
              AvailableMonthNumbersNoLeap(days) == DateHelper.GetAvailableMonthNumbers(days, year)
    ensures days == 29 ==>
              AvailableMonthNumbersNoLeap(days).Err? &&
              DateHelper.GetAvailableMonthNumbers(days, year) == Ok([1, 3, 4, 5, 6, 7, 8, 9, 10, 11, 12])
    ensures days < 1 ==>
              AvailableMonthNumbersNoLeap(days) == Ok(DateHelper.AllMonths) &&
              DateHelper.GetAvailableMonthNumbers(days, year).Err?
  {
    assert DateHelper.AllMonths == [1, 2, 3, 4, 5, 6, 7, 8, 9, 10, 11, 12];
    DateHelper.AvailableMonthsByDay(days, year);
  }

  // ---------------------------------------------------------------------------
  // Options of the two selects
  // ---------------------------------------------------------------------------

  /** An `<option>`: its text, its value (`None` for the empty placeholder value) and two flags. */
  datatype OptionItem = OptionItem(text: string, value: Option<int>, disabled: bool, hidden: bool)

  function Placeholder(text: string): OptionItem
  {
    OptionItem(text, None, false, false)
  }

  /** `_getMonthSelect`: the "Month" placeholder, then month name `i` with value `i`. */
  function MonthOptions(months: seq<string>): (r: seq<OptionItem>)
    ensures |r| == |months| + 1
    ensures r[0] == Placeholder("Month")
    ensures forall i | 1 <= i < |r| :: r[i].value == Some(i) && r[i].text == months[i - 1]
    ensures forall i | 0 <= i < |r| :: !r[i].disabled && !r[i].hidden
  {
    [Placeholder("Month")] + seq(|months|, i requires 0 <= i < |months| => OptionItem(months[i], Some(i + 1), false, false))
  }

  /** `_getDaySelect`: the "Day" placeholder, then the days 1 to 31. */
  function DayOptions(): (r: seq<OptionItem>)
    ensures |r| == 32
    ensures r[0] == Placeholder("Day")
    ensures forall i | 1 <= i < |r| :: r[i].value == Some(i) && r[i].text == NatToString(i)
    ensures forall i | 0 <= i < |r| :: !r[i].disabled && !r[i].hidden
  {
    [Placeholder("Day")] + seq(31, i requires 0 <= i < 31 => OptionItem(NatToString(i + 1), Some(i + 1), false, false))
  }

  // ---------------------------------------------------------------------------
  // Masking days by month
  // ---------------------------------------------------------------------------

  /** The day limit after a month change: none for the placeholder, the month's
      length otherwise, or the error `_getDaysInMonth` throws. */
  function DayLimit(selectedMonth: Option<int>): (r: Result<Option<int>>)
    ensures selectedMonth.None? ==> r == Ok(None)
    ensures selectedMonth.Some? && 1 <= selectedMonth.value <= 12 ==>
              r == Ok(Some(DaysInMonthNoLeap(selectedMonth.value).value))
  {
    if selectedMonth.Some? && selectedMonth.value != 0 then
      var days := DaysInMonthNoLeap(selectedMonth.value);
      if days.Ok? then Ok(Some(days.value)) else Err(days.message)
    else
      Ok(None)
  }

  /** The option's value is a day beyond `limit`. */
  predicate Exceeds(value: Option<int>, limit: Option<int>)
  {
    limit.Some? && value.Some? && value.value > limit.value
  }

  /** The day options after masking: exactly the days beyond the limit are
      disabled and hidden, all others are enabled and shown. */
  function MaskDays(options: seq<OptionItem>, limit: Option<int>): (r: seq<OptionItem>)
    ensures |r| == |options|
    ensures forall i | 0 <= i < |r| :: r[i].text == options[i].text && r[i].value == options[i].value
    ensures forall i | 0 <= i < |r| ::
              r[i].disabled == Exceeds(options[i].value, limit) && r[i].hidden == Exceeds(options[i].value, limit)
  {
    seq(|options|, i requires 0 <= i < |options| =>
      options[i].(disabled := Exceeds(options[i].value, limit), hidden := Exceeds(options[i].value, limit)))
  }

  /** The values of the options left visible. */
  function VisibleValues(options: seq<OptionItem>): set<int>
  {
    set i | 0 <= i < |options| && !options[i].hidden && options[i].value.Some? :: options[i].value.value
  }

  /** The numbers 1..n. */
  function UpTo(n: int): (r: set<int>)
    ensures forall d :: d in r <==> 1 <= d <= n
    decreases n
  {
    if n <= 0 then {} else UpTo(n - 1) + {n}
  }

  lemma {:induction false} UpToSize(n: nat)
    ensures |UpTo(n)| == n
  {
    if n > 0 {
      UpToSize(n - 1);
      assert n !in UpTo(n - 1);
    }
  }

  /** After a month is chosen, exactly its days stay visible: 31, 30 or 28 of them. */
  lemma VisibleDaysAreTheMonthsDays(monthNumber: int)
    requires 1 <= monthNumber <= 12
    ensures var length := DaysInMonthNoLeap(monthNumber).value;
            var shown := VisibleValues(MaskDays(DayOptions(), DayLimit(Some(monthNumber)).value));
            shown == UpTo(length) && |shown| == length
  {
    var length := DaysInMonthNoLeap(monthNumber).value;
    assert DayLimit(Some(monthNumber)).value == Some(length);
    VisibleValuesUnderLimit(DayOptions(), length);
    UpToSize(length);
  }

  /** Masking a select whose option `i` holds day `i` leaves exactly the days up to the limit visible. */
  lemma VisibleValuesUnderLimit(options: seq<OptionItem>, limit: nat)
    requires limit < |options|
    requires options[0].value.None?
    requires forall i | 1 <= i < |options| :: options[i].value == Some(i)
    ensures VisibleValues(MaskDays(options, Some(limit))) == UpTo(limit)
  {
    var masked := MaskDays(options, Some(limit));
    forall d ensures d in VisibleValues(masked) <==> d in UpTo(limit) {
      if 1 <= d <= limit {
        assert masked[d].value == Some(d) && !masked[d].hidden;
      }
    }
  }

  /** With the placeholder month selected, every day is shown again. */
  lemma PlaceholderMonthShowsAllDays(options: seq<OptionItem>)
    ensures forall i | 0 <= i < |options| ::
              !MaskDays(options, DayLimit(None).value)[i].hidden && !MaskDays(options, DayLimit(None).value)[i].disabled
  {
  }

  // ---------------------------------------------------------------------------
  // Masking months by day
  // ---------------------------------------------------------------------------

  /** The months allowed after a day change: no restriction for the placeholder,
      the list `_getAvailableMonthNumbers` gives otherwise, or its error. */
  function MonthAvailability(selectedDay: Option<int>): (r: Result<Option<seq<int>>>)
    ensures selectedDay.None? ==> r == Ok(None)
    ensures selectedDay.Some? && selectedDay.value != 0 ==>
              (r.Ok? <==> AvailableMonthNumbersNoLeap(selectedDay.value).Ok?)
  {
    if selectedDay.Some? && selectedDay.value != 0 then
      var months := AvailableMonthNumbersNoLeap(selectedDay.value);
      if months.Ok? then Ok(Some(months.value)) else Err(months.message)
    else
      Ok(None)
  }

  /** The option's value is a month outside `available`; the placeholder never is. */
  predicate Excluded(value: Option<int>, available: Option<seq<int>>)
  {
    available.Some? && value.Some? && value.value !in available.value
  }

  /** The month options after masking: exactly the months outside the list are
      disabled; nothing else changes. */
  function MaskMonths(options: seq<OptionItem>, available: Option<seq<int>>): (r: seq<OptionItem>)
    ensures |r| == |options|
    ensures forall i | 0 <= i < |r| ::
              r[i].text == options[i].text && r[i].value == options[i].value && r[i].hidden == options[i].hidden
    ensures forall i | 0 <= i < |r| :: r[i].disabled == Excluded(options[i].value, available)
    ensures forall i | 0 <= i < |r| :: options[i].value.None? ==> !r[i].disabled
  {
    seq(|options|, i requires 0 <= i < |options| => options[i].(disabled := Excluded(options[i].value, available)))
  }

  /** The values of the disabled options. */
  function DisabledValues(options: seq<OptionItem>): set<int>
  {
    set i | 0 <= i < |options| && options[i].disabled && options[i].value.Some? :: options[i].value.value
  }

  /** A month is in the list for a day exactly when it has that day. */
  lemma AvailableMeansLongEnough(day: int, monthNumber: int)
    requires 1 <= day <= 28 || day == 30 || day == 31
    requires 1 <= monthNumber <= 12
    ensures monthNumber in AvailableMonthNumbersNoLeap(day).value <==> day <= DaysInMonthNoLeap(monthNumber).value
  {
    if day < 29 {
      assert monthNumber == [1, 2, 3, 4, 5, 6, 7, 8, 9, 10, 11, 12][monthNumber - 1];
    }
  }

  /** The months too short for a day. */
  function ShortMonths(day: int): set<int>
  {
    set m | m in UpTo(12) && DaysInMonthNoLeap(m).value < day
  }

  /** After choosing a day, the disabled options of a twelve-month select are
      exactly the months too short for it. */
  lemma DisabledMonthsForDay(months: seq<string>, day: int)
    requires |months| == 12
    requires 1 <= day <= 28 || day == 30 || day == 31
    ensures DisabledValues(MaskMonths(MonthOptions(months), MonthAvailability(Some(day)).value)) == ShortMonths(day)
  {
    var options := MonthOptions(months);
    var available := MonthAvailability(Some(day)).value;
    var masked := MaskMonths(options, available);
    forall m ensures m in DisabledValues(masked) <==> m in ShortMonths(day) {
      if 1 <= m <= 12 {
        assert options[m].value == Some(m);
        AvailableMeansLongEnough(day, m);
      }
    }
  }

  /** No month is disabled up to day 28, February for day 30, and the five
      short months for day 31. */
  lemma ShortMonthsByDay(day: int)
    ensures 1 <= day <= 28 ==> ShortMonths(day) == {}
    ensures ShortMonths(30) == {2}
    ensures ShortMonths(31) == {2, 4, 6, 9, 11} && |ShortMonths(31)| == 5
  {
    assert forall m | m in ShortMonths(31) :: m in {2, 4, 6, 9, 11};
    assert forall m | m in ShortMonths(30) :: m == 2;
    assert DaysInMonthNoLeap(2).value < 30;
  }

  // ---------------------------------------------------------------------------
  // The hidden value
  // ---------------------------------------------------------------------------

  /** `_getAge` on a parsed birth date: the same month-then-day comparison as
      `calculateAge`, without two-digit normalisation. */
  function GetAge(now: DateHelper.Date, birth: DateHelper.Date): (age: int)
    ensures age == now.year - birth.year - (if DateHelper.BeforeAnniversary(now, birth.month0 + 1, birth.day) then 1 else 0)
  {
    var age := now.year - birth.year;
    var m := now.month0 - birth.month0;
    if m < 0 || (m == 0 && now.day < birth.day) then age - 1 else age
  }

  /** For a birth year the two-digit rule leaves alone, `_getAge` and `calculateAge` agree. */
  lemma GetAgeIsCalculateAge(now: DateHelper.Date, birth: DateHelper.Date)
    requires birth.year != 0 && !(10 <= birth.year <= 99)
    ensures GetAge(now, birth) == DateHelper.CalculateAge(now, birth.month0 + 1, birth.day, birth.year)
  {
  }

  /** The string handed to the host's date parser: `${year}/${month}/${day}`. */
  function DateString(year: string, month: int, day: int): (r: string)
    ensures |r| > |year| && r[..|year|] == year && r[|year|] == '/'
    ensures month >= 0 && day >= 0 ==>
              var rest := r[|year| + 1..];
              exists k | 0 < k < |rest| - 1 :: rest[k] == '/' && IsNumeral(rest[..k], month) && IsNumeral(rest[k + 1..], day)
  {
    var m := IntToString(month);
    var d := IntToString(day);
    DateStringParts(year, m, d);
    year + "/" + m + "/" + d
  }

  /** Where the parts of `year/m/d` sit in the joined string. */
  lemma DateStringParts(year: string, m: string, d: string)
    ensures var r := year + "/" + m + "/" + d;
            var rest := r[|year| + 1..];
            r[..|year|] == year && r[|year|] == '/' &&
            rest[..|m|] == m && |rest| == |m| + 1 + |d| && rest[|m|] == '/' && rest[|m| + 1..] == d
  {
    var r := year + "/" + m + "/" + d;
    assert r[|year| + 1..] == m + "/" + d;
  }

  /** What `_getAge(dateString)` writes into the hidden input: the age, or `NaN`
      when the host cannot parse the string. */
  function AgeText(now: DateHelper.Date, parsed: Option<DateHelper.Date>): (s: string)
    ensures |s| > 0
  {
    if parsed.Some? then IntToString(GetAge(now, parsed.value)) else "NaN"
  }

  /** `_updateHiddenElementValue`: the value of the hidden input. Text without a
      four-digit run is copied; with one, the value is blank until a month and a
      day are both selected, and the age afterwards. */
  function HiddenValue(text: string, month: Option<int>, day: Option<int>,
                       now: DateHelper.Date, parse: string -> Option<DateHelper.Date>): (r: string)
    ensures !HasFourDigitRun(text) ==> r == text
    ensures HasFourDigitRun(text) ==> (r == "" <==> month.None? || day.None?)
  {
    if HasFourDigitRun(text) then
      if month.Some? && day.Some? then AgeText(now, parse(DateString(text, month.value, day.value))) else ""
    else
      text
  }

  /** When the host reads the date string as a birth date with a four-digit year,
      the hidden input holds the age `calculateAge` gives for it. */
  lemma HiddenValueIsCalculatedAge(text: string, month: int, day: int,
                                   now: DateHelper.Date, parse: string -> Option<DateHelper.Date>)
    requires HasFourDigitRun(text)
    requires parse(DateString(text, month, day)).Some?
    requires parse(DateString(text, month, day)).value.year >= 100
    ensures var birth := parse(DateString(text, month, day)).value;
            HiddenValue(text, Some(month), Some(day), now, parse) ==
            IntToString(DateHelper.CalculateAge(now, birth.month0 + 1, birth.day, birth.year))
  {
    GetAgeIsCalculateAge(now, parse(DateString(text, month, day)).value);
  }

  /** The worked cases: small ages are copied, a year alone gives a blank value. */
  lemma HiddenValueExamples(now: DateHelper.Date, parse: string -> Option<DateHelper.Date>)
    ensures HiddenValue("5", None, None, now, parse) == "5"
    ensures HiddenValue("21", None, None, now, parse) == "21"
    ensures HiddenValue("101", None, None, now, parse) == "101"
    ensures HiddenValue("1990", None, None, now, parse) == ""
    ensures HiddenValue("1990", Some(7), None, now, parse) == ""
  {
    FourDigitRunExamples();
  }

  // ---------------------------------------------------------------------------
  // The DOM state
  // ---------------------------------------------------------------------------

  /** A `<select>`: its options, whose flags the picker changes in place, and the selected index. */
  class Select {
    const options: array<OptionItem>
    var selectedIndex: nat

    ghost predicate Valid()
      reads this
    {
      selectedIndex < options.Length
    }

    constructor (items: seq<OptionItem>)
      requires |items| > 0
      ensures Valid() && fresh(options)
      ensures options[..] == items && selectedIndex == 0
    {
      options := new OptionItem[|items|](i requires 0 <= i < |items| => items[i]);
      selectedIndex := 0;
    }

    /** `select.options[select.selectedIndex].value`. */
    function SelectedValue(): Option<int>
      reads this, options
      requires Valid()
    {
      options[selectedIndex].value
    }
  }

  /** What `create` builds around one input element: the element's text, the
      hidden input's value, and the month and day selects. */
  class AgeField {
    var text: string
    var hidden: string
    const monthSelect: Select
    const daySelect: Select

    ghost predicate Valid()
      reads this, monthSelect, daySelect, monthSelect.options, daySelect.options
    {
      monthSelect.Valid() && daySelect.Valid() &&
      monthSelect.options != daySelect.options &&
      monthSelect.options[0].value.None? && daySelect.options[0].value.None?
    }

    constructor (text: string, monthSelect: Select, daySelect: Select)
      requires monthSelect.Valid() && daySelect.Valid() && monthSelect.options != daySelect.options
      requires monthSelect.options[0].value.None? && daySelect.options[0].value.None?
      ensures Valid()
      ensures this.text == text && hidden == ""
      ensures this.monthSelect == monthSelect && this.daySelect == daySelect
    {
      this.text := text;
      hidden := "";
      this.monthSelect := monthSelect;
      this.daySelect := daySelect;
    }
  }

  // ---------------------------------------------------------------------------
  // The picker
  // ---------------------------------------------------------------------------

  class AgePicker {
    const configuration: Configuration

    constructor (configuration: Configuration)
      requires AcceptsConfiguration(configuration)
      ensures this.configuration == configuration
    {
      this.configuration := configuration;
    }

    /** The source's constructor: defaults, class names derived from the default
        prefix, the supplied keys merged over them, then the `data-` check. */
    static method New(supplied: Option<Overrides>) returns (r: Result<AgePicker>)
      ensures r.Ok? <==> AcceptsConfiguration(MergedConfiguration(supplied))
      ensures r.Ok? ==> fresh(r.value) && r.value.configuration == MergedConfiguration(supplied)
      ensures r.Err? ==> r.message == DataAttributeMessage
    {
      var configuration := Configuration("data-age-picker", "age-picker", [], I18n(EnglishMonths), "", "", "");
      configuration := configuration.(containerClass := configuration.prefixClass + "-container");
      configuration := configuration.(monthSelectClass := configuration.prefixClass + "-month");
      configuration := configuration.(daySelectClass := configuration.prefixClass + "-day");
      assert configuration == DefaultConfiguration;
      if supplied.Some? {
        configuration := Assign(configuration, supplied.value);
      }
      if !StartsWith(configuration.dataAttribute, "data-") {
        return Err(DataAttributeMessage);
      }
      var picker := new AgePicker(configuration);
      return Ok(picker);
    }

    /** `create(element)`: the month select from the configured month names, the
        day select, and an empty hidden value; `None` is a missing element. */
    method Create(element: Option<string>) returns (r: Result<AgeField>)
      ensures r.Err? <==> element.None?
      ensures r.Err? ==> r.message == ElementMissingMessage
      ensures r.Ok? ==> fresh(r.value) && fresh(r.value.monthSelect) && fresh(r.value.daySelect)
      ensures r.Ok? ==> fresh(r.value.monthSelect.options) && fresh(r.value.daySelect.options)
      ensures r.Ok? ==> r.value.Valid() && r.value.text == element.value && r.value.hidden == ""
      ensures r.Ok? ==> r.value.monthSelect.options[..] == MonthOptions(configuration.i18n.months)
      ensures r.Ok? ==> r.value.daySelect.options[..] == DayOptions()
      ensures r.Ok? ==> r.value.monthSelect.selectedIndex == 0 && r.value.daySelect.selectedIndex == 0
    {
      if element.None? {
        return Err(ElementMissingMessage);
      }
      var monthSelect := new Select(MonthOptions(configuration.i18n.months));
      var daySelect := new Select(DayOptions());
      var field := new AgeField(element.value, monthSelect, daySelect);
      return Ok(field);
    }

    /** `_updateHiddenElementValue`. */
    method UpdateHiddenElementValue(field: AgeField, now: DateHelper.Date, parse: string -> Option<DateHelper.Date>)
      requires field.Valid()
      modifies field`hidden
      ensures field.hidden ==
              HiddenValue(field.text, field.monthSelect.SelectedValue(), field.daySelect.SelectedValue(), now, parse)
    {
      if HasFourDigitRun(field.text) {
        var year := field.text;
        var month := field.monthSelect.options[field.monthSelect.selectedIndex].value;
        var day := field.daySelect.options[field.daySelect.selectedIndex].value;
        if month.Some? && day.Some? {
          field.hidden := AgeText(now, parse(DateString(year, month.value, day.value)));
        } else {
          field.hidden := "";
        }
      } else {
        field.hidden := field.text;
      }
    }

    /** `_updateDaySelectBasedOnMonthSelect`: show every day, then hide and
        disable the days beyond the selected month's length. */
    method UpdateDaySelectBasedOnMonthSelect(daySelect: Select, monthSelect: Select) returns (outcome: Outcome)
      requires daySelect.Valid() && monthSelect.Valid() && daySelect.options != monthSelect.options
      modifies daySelect.options
      ensures var limit := DayLimit(monthSelect.SelectedValue());
              outcome == (if limit.Ok? then Pass else Fail(limit.message)) &&
              daySelect.options[..] == MaskDays(old(daySelect.options[..]), if limit.Ok? then limit.value else None)
    {
      var options := daySelect.options;
      var i := 0;
      while i < options.Length
        invariant 0 <= i <= options.Length
        invariant forall k | 0 <= k < i :: options[k] == old(options[k]).(disabled := false, hidden := false)
        invariant forall k | i <= k < options.Length :: options[k] == old(options[k])
      {
        options[i] := options[i].(disabled := false, hidden := false);
        i := i + 1;
      }
      var limit := DayLimit(monthSelect.options[monthSelect.selectedIndex].value);
      if limit.Err? {
        return Fail(limit.message);
      }
      if limit.value.Some? {
        var daysInMonth := limit.value.value;
        i := 0;
        while i < options.Length
          invariant 0 <= i <= options.Length
          invariant forall k | 0 <= k < i ::
                      options[k] == old(options[k]).(disabled := Exceeds(old(options[k]).value, limit.value),
                                                     hidden := Exceeds(old(options[k]).value, limit.value))
          invariant forall k | i <= k < options.Length :: options[k] == old(options[k]).(disabled := false, hidden := false)
        {
          if options[i].value.Some? && options[i].value.value > daysInMonth {
            options[i] := options[i].(disabled := true, hidden := true);
          }
          i := i + 1;
        }
      }
      return Pass;
    }

    /** `_updateMonthSelectBasedOnDaySelect`: enable every month, then disable the
        months that have no such day. */
    method UpdateMonthSelectBasedOnDaySelect(monthSelect: Select, daySelect: Select) returns (outcome: Outcome)
      requires daySelect.Valid() && monthSelect.Valid() && daySelect.options != monthSelect.options
      modifies monthSelect.options
      ensures var available := MonthAvailability(daySelect.SelectedValue());
              outcome == (if available.Ok? then Pass else Fail(available.message)) &&
              monthSelect.options[..] == MaskMonths(old(monthSelect.options[..]), if available.Ok? then available.value else None)
    {
      var options := monthSelect.options;
      var i := 0;
      while i < options.Length
        invariant 0 <= i <= options.Length
        invariant forall k | 0 <= k < i :: options[k] == old(options[k]).(disabled := false)
        invariant forall k | i <= k < options.Length :: options[k] == old(options[k])
      {
        options[i] := options[i].(disabled := false);
        i := i + 1;
      }
      var available := MonthAvailability(daySelect.options[daySelect.selectedIndex].value);
      if available.Err? {
        return Fail(available.message);
      }
      if available.value.Some? {
        var availableMonthNumbers := available.value.value;
        i := 0;
        while i < options.Length
          invariant 0 <= i <= options.Length
          invariant forall k | 0 <= k < i ::
                      options[k] == old(options[k]).(disabled := Excluded(old(options[k]).value, available.value))
          invariant forall k | i <= k < options.Length :: options[k] == old(options[k]).(disabled := false)
        {
          if options[i].value.Some? && options[i].value.value !in availableMonthNumbers {
            options[i] := options[i].(disabled := true);
          }
          i := i + 1;
        }
      }
      return Pass;
    }

    /** The `keyup` listener, after the user has typed `value`: without a
        four-digit run both selects go back to their placeholders; then the
        hidden value is recomputed. */
    method OnKeyUp(field: AgeField, value: string, now: DateHelper.Date, parse: string -> Option<DateHelper.Date>)
      requires field.Valid()
      modifies field, field.monthSelect, field.daySelect
      ensures field.Valid() && field.text == value
      ensures HasFourDigitRun(value) ==>
                field.monthSelect.selectedIndex == old(field.monthSelect.selectedIndex) &&
                field.daySelect.selectedIndex == old(field.daySelect.selectedIndex)
      ensures !HasFourDigitRun(value) ==> field.monthSelect.selectedIndex == 0 && field.daySelect.selectedIndex == 0
      ensures !HasFourDigitRun(value) ==> field.hidden == value
      ensures field.hidden ==
              HiddenValue(value, field.monthSelect.SelectedValue(), field.daySelect.SelectedValue(), now, parse)
    {
      field.text := value;
      if !HasFourDigitRun(value) {
        field.monthSelect.selectedIndex := 0;
        field.daySelect.selectedIndex := 0;
      }
      UpdateHiddenElementValue(field, now, parse);
    }

    /** The month select's `change` listener, after the user has chosen option `index`. */
    method OnMonthChange(field: AgeField, index: nat, now: DateHelper.Date, parse: string -> Option<DateHelper.Date>)
      returns (outcome: Outcome)
      requires field.Valid() && index < field.monthSelect.options.Length
      modifies field`hidden, field.monthSelect, field.daySelect.options
      ensures field.Valid() && field.monthSelect.selectedIndex == index
      ensures field.hidden ==
              HiddenValue(field.text, field.monthSelect.SelectedValue(), field.daySelect.SelectedValue(), now, parse)
      ensures var limit := DayLimit(field.monthSelect.SelectedValue());
              outcome == (if limit.Ok? then Pass else Fail(limit.message)) &&
              field.daySelect.options[..] == MaskDays(old(field.daySelect.options[..]), if limit.Ok? then limit.value else None)
    {
      field.monthSelect.selectedIndex := index;
      UpdateHiddenElementValue(field, now, parse);
      outcome := UpdateDaySelectBasedOnMonthSelect(field.daySelect, field.monthSelect);
    }

    /** The day select's `change` listener, after the user has chosen option `index`. */
    method OnDayChange(field: AgeField, index: nat, now: DateHelper.Date, parse: string -> Option<DateHelper.Date>)
      returns (outcome: Outcome)
      requires field.Valid() && index < field.daySelect.options.Length
      modifies field`hidden, field.daySelect, field.monthSelect.options
      ensures field.Valid() && field.daySelect.selectedIndex == index
      ensures field.hidden ==
              HiddenValue(field.text, field.monthSelect.SelectedValue(), field.daySelect.SelectedValue(), now, parse)
      ensures var available := MonthAvailability(field.daySelect.SelectedValue());
              outcome == (if available.Ok? then Pass else Fail(available.message)) &&
              field.monthSelect.options[..] ==
              MaskMonths(old(field.monthSelect.options[..]), if available.Ok? then available.value else None)
    {
      field.daySelect.selectedIndex := index;
      UpdateHiddenElementValue(field, now, parse);
      outcome := UpdateMonthSelectBasedOnDaySelect(field.monthSelect, field.daySelect);
    }
  }
}
