/**
 The civil-date arithmetic behind HFS creation and backup times: the closed
 formula against the proleptic Gregorian calendar of ISO 8601, counted year by
 year, month by month and day by day.
 */
module CivilDate {
  import Division

  // ---------- The formula, as the code computes it ----------

  /** Unsigned 32-bit wrap-around. */
  function U32(x: int): nat {
    x % 0x1_0000_0000
  }

  /** A conversion from unsigned to int. */
  function AsInt(x: nat): int {
    if x < 0x8000_0000 then x else x - 0x1_0000_0000
  }

  /** Division of ints, which truncates towards zero. */
  function Quotient(x: int, y: int): int
    requires y > 0
  {
    if x >= 0 then x / y else -(-x / y)
  }

  /** Years start in March, so that the leap day comes last. */
  function ShiftedYear(year: int, month: nat): int {
    if month <= 2 then year - 1 else year
  }

  function Era(shiftedYear: int): int {
    Quotient(if shiftedYear >= 0 then shiftedYear else shiftedYear - 399, 400)
  }

  function DayOfYear(month: nat, day: nat): nat {
    var shiftedMonth := U32(if month > 2 then month - 3 else month + 9);
    U32(U32(153 * shiftedMonth + 2) / 5 + day - 1)
  }

  function DayOfEra(shiftedYear: int, dayOfYear: nat): nat {
    var yearOfEra := U32(shiftedYear - Era(shiftedYear) * 400);
    U32(yearOfEra * 365 + yearOfEra / 4 - yearOfEra / 100 + dayOfYear)
  }

  function DaysFromCivil(year: int, month: nat, day: nat): int {
    var shifted := ShiftedYear(year, month);
    Era(shifted) * 146097 + AsInt(DayOfEra(shifted, DayOfYear(month, day))) - 719468
  }

  // ---------- The calendar ----------

  predicate Leap(year: int) {
    year % 4 == 0 && (year % 100 != 0 || year % 400 == 0)
  }

  function YearLength(year: int): nat {
    if Leap(year) then 366 else 365
  }

  function MonthLength(year: int, month: nat): nat
    requires 1 <= month <= 12
  {
    if month == 2 then (if Leap(year) then 29 else 28)
    else if month in {4, 6, 9, 11} then 30
    else 31
  }

  datatype Date = Date(year: int, month: nat, day: nat) {
    predicate Valid() {
      1 <= month <= 12 && 1 <= day <= MonthLength(year, month)
    }

    function Next(): (next: Date)
      requires Valid()
      ensures next.Valid()
    {
      if day < MonthLength(year, month) then Date(year, month, day + 1)
      else if month < 12 then Date(year, month + 1, 1)
      else Date(year + 1, 1, 1)
    }

    function Previous(): (previous: Date)
      requires Valid()
      ensures previous.Valid() && previous.Next() == this
    {
      if day > 1 then Date(year, month, day - 1)
      else if month > 1 then Date(year, month - 1, MonthLength(year, month - 1))
      else Date(year - 1, 12, 31)
    }

    predicate Before(other: Date) {
      || year < other.year
      || (year == other.year && (month < other.month || (month == other.month && day < other.day)))
    }

    function Number(): int {
      DaysFromCivil(year, month, day)
    }
  }

  /** The days from 1 January 1970 to 1 January of a year, counting whole years. */
  function DaysToYear(year: int): int
    decreases if year >= 1970 then year - 1970 else 1970 - year
  {
    if year == 1970 then 0
    else if year > 1970 then DaysToYear(year - 1) + YearLength(year - 1)
    else DaysToYear(year + 1) - YearLength(year)
  }

  /** The days from 1 January to the first of a month, counting whole months. */
  function DaysToMonth(year: int, month: nat): nat
    requires 1 <= month <= 12
  {
    if month == 1 then 0 else DaysToMonth(year, month - 1) + MonthLength(year, month - 1)
  }

  // ---------- One day, one month, one year further ----------

  /** The era is the floor of the quotient, for negative years too. */
  lemma EraIsFloor(year: int)
    ensures Era(year) == year / 400
    ensures 0 <= year - Era(year) * 400 < 400
  {}

  /** 153 / 5 days to the month: 31, 30, 31, 30, 31 and again from August. */
  function FromMarch(month: nat): nat
    requires 1 <= month <= 12
  {
    var march := if month > 2 then month - 3 else month + 9;
    (153 * march + 2) / 5
  }

  /** The days before a year of the era. */
  function FromEra(yearOfEra: nat): int {
    yearOfEra * 365 + yearOfEra / 4 - yearOfEra / 100
  }

  lemma DayOfYearIsSmall(month: nat, day: nat)
    requires 1 <= month <= 12 && 1 <= day <= 31
    ensures DayOfYear(month, day) == FromMarch(month) + day - 1
  {
    var march := if month > 2 then month - 3 else month + 9;
    assert U32(march) == march;
    assert U32(153 * march + 2) == 153 * march + 2;
  }

  lemma DayOfEraIsSmall(shifted: int, dayOfYear: nat)
    requires dayOfYear <= 366
    ensures DayOfEra(shifted, dayOfYear) == FromEra(shifted % 400) + dayOfYear
  {
    EraIsFloor(shifted);
    assert U32(shifted % 400) == shifted % 400;
  }

  /** The days from 1 March of year 0 to 1 March of a year. */
  function MarchOf(year: int): int {
    year / 400 * 146097 + FromEra(year % 400)
  }

  /** On valid dates no unsigned step wraps. */
  lemma NoUnsignedWrap(date: Date)
    requires date.Valid()
    ensures date.Number() == MarchOf(ShiftedYear(date.year, date.month)) + FromMarch(date.month) + date.day - 719469
    ensures FromMarch(date.month) + date.day - 1 <= 365
  {
    var shifted := ShiftedYear(date.year, date.month);
    hide DayOfYear, DayOfEra, Era;
    DayOfYearIsSmall(date.month, date.day);
    DayOfEraIsSmall(shifted, DayOfYear(date.month, date.day));
    EraIsFloor(shifted);
  }

  lemma EpochIsZero()
    ensures Date(1970, 1, 1).Valid() && Date(1970, 1, 1).Number() == 0
  {
    hide Date.Number;
    NoUnsignedWrap(Date(1970, 1, 1));
  }

  // ---------- One day, one month, one year further ----------

  lemma Remainders(era: int, year: nat)
    ensures (era * 400 + year) % 4 == year % 4
    ensures (era * 400 + year) % 100 == year % 100
    ensures (era * 400 + year) % 400 == year % 400
  {
    Division.Shift(year, era * 100, 4);
    Division.Shift(year, era * 4, 100);
    Division.Shift(year, era, 400);
  }

  lemma LeapRepeats(era: int, yearOfEra: nat)
    requires yearOfEra <= 400
    ensures Leap(era * 400 + yearOfEra) == Leap(yearOfEra)
  {
    Remainders(era, yearOfEra);
  }

  lemma FromEraStep(yearOfEra: nat)
    requires yearOfEra < 400
    ensures FromEra(yearOfEra) + YearLength(yearOfEra + 1)
            == if yearOfEra == 399 then 146097 else FromEra(yearOfEra + 1)
    ensures FromEra(0) == 0
  {
    Division.Step(yearOfEra, 4);
    Division.Step(yearOfEra, 100);
  }

  /** From one 1 March to the next is a year with its leap day at the end. */
  lemma MarchToMarch(year: int)
    ensures MarchOf(year + 1) == MarchOf(year) + YearLength(year + 1)
  {
    var era, yearOfEra := year / 400, year % 400;
    LeapRepeats(era, yearOfEra + 1);
    hide Leap, FromEra;
    FromEraStep(yearOfEra);
    if yearOfEra == 399 {
      assert (year + 1) / 400 == era + 1 && (year + 1) % 400 == 0;
    } else {
      assert (year + 1) / 400 == era && (year + 1) % 400 == yearOfEra + 1;
    }
  }

  /** Within a month the number grows by the day. */
  lemma WithinMonth(date: Date)
    requires date.Valid()
    ensures date.Number() == Date(date.year, date.month, 1).Number() + date.day - 1
  {
    hide Date.Number, MarchOf;
    NoUnsignedWrap(date);
    NoUnsignedWrap(Date(date.year, date.month, 1));
  }

  /** The first of a month is the month's length after the first of the month before. */
  lemma MonthToMonth(year: int, month: nat)
    requires 1 <= month < 12
    ensures Date(year, month + 1, 1).Number() == Date(year, month, 1).Number() + MonthLength(year, month)
  {
    hide Date.Number, MarchOf, Leap;
    NoUnsignedWrap(Date(year, month, 1));
    NoUnsignedWrap(Date(year, month + 1, 1));
    MarchToMarch(year - 1);
  }

  /** The new year follows 31 December. */
  lemma DecemberToJanuary(year: int)
    ensures Date(year + 1, 1, 1).Number() == Date(year, 12, 1).Number() + 31
  {
    hide Date.Number, MarchOf;
    NoUnsignedWrap(Date(year, 12, 1));
    NoUnsignedWrap(Date(year + 1, 1, 1));
  }

  /**
   The successor of any valid date maps to exactly one more: across months,
   leap days, century years, 400-year boundaries and negative years.
   */
  lemma NextIsOneMore(date: Date)
    requires date.Valid()
    ensures date.Next().Number() == date.Number() + 1
  {
    hide Date.Number;
    WithinMonth(date);
    if date.day < MonthLength(date.year, date.month) {
      WithinMonth(date.Next());
    } else if date.month < 12 {
      MonthToMonth(date.year, date.month);
    } else {
      DecemberToJanuary(date.year);
    }
  }

  // ---------- The formula counts days ----------

  lemma {:induction false} CountsMonths(year: int, month: nat)
    requires 1 <= month <= 12
    ensures Date(year, month, 1).Number() == Date(year, 1, 1).Number() + DaysToMonth(year, month)
  {
    if month > 1 {
      CountsMonths(year, month - 1);
      MonthToMonth(year, month - 1);
    }
  }

  lemma YearToYear(year: int)
    ensures Date(year + 1, 1, 1).Number() == Date(year, 1, 1).Number() + YearLength(year)
  {
    hide Date.Number, MarchOf, Leap;
    MarchToMarch(year - 1);
    NoUnsignedWrap(Date(year, 1, 1));
    NoUnsignedWrap(Date(year + 1, 1, 1));
  }

  lemma {:induction false} CountsYears(year: int)
    ensures Date(year, 1, 1).Number() == DaysToYear(year)
    decreases if year >= 1970 then year - 1970 else 1970 - year
  {
    if year == 1970 {
      EpochIsZero();
    } else if year > 1970 {
      CountsYears(year - 1);
      YearToYear(year - 1);
    } else {
      CountsYears(year + 1);
      YearToYear(year);
    }
  }

  /** The closed formula is the number of days since 1 January 1970, for every valid date. */
  lemma FormulaCountsDays(date: Date)
    requires date.Valid()
    ensures DaysFromCivil(date.year, date.month, date.day)
            == DaysToYear(date.year) + DaysToMonth(date.year, date.month) + date.day - 1
  {
    WithinMonth(date);
    CountsMonths(date.year, date.month);
    CountsYears(date.year);
  }

  // ---------- One number per date, one date per number ----------

  lemma {:induction false} MonthsGrow(year: int, a: nat, b: nat)
    requires 1 <= a < b <= 12
    ensures DaysToMonth(year, a) + MonthLength(year, a) <= DaysToMonth(year, b)
    decreases b
  {
    if a < b - 1 {
      MonthsGrow(year, a, b - 1);
    }
  }

  lemma {:induction false} YearsGrow(a: int, b: int)
    requires a < b
    ensures DaysToYear(a) + YearLength(a) <= DaysToYear(b)
    decreases b - a
  {
    CountsYears(b);
    CountsYears(b - 1);
    YearToYear(b - 1);
    if a < b - 1 {
      YearsGrow(a, b - 1);
    }
  }

  /** A date falls inside its year. */
  lemma InsideYear(date: Date)
    requires date.Valid()
    ensures 0 <= DaysToMonth(date.year, date.month) + date.day - 1 < YearLength(date.year)
  {
    CountsMonths(date.year, 12);
    DecemberToJanuary(date.year);
    YearToYear(date.year);
    if date.month < 12 {
      MonthsGrow(date.year, date.month, 12);
    }
  }

  /** Calendar order and numeric order agree. */
  lemma OrderIsKept(a: Date, b: Date)
    requires a.Valid() && b.Valid()
    ensures a.Before(b) <==> a.Number() < b.Number()
    ensures a == b <==> a.Number() == b.Number()
  {
    if a.Before(b) {
      EarlierIsLess(a, b);
    } else if b.Before(a) {
      EarlierIsLess(b, a);
    }
  }

  lemma EarlierIsLess(a: Date, b: Date)
    requires a.Valid() && b.Valid() && a.Before(b)
    ensures a.Number() < b.Number()
  {
    FormulaCountsDays(a);
    FormulaCountsDays(b);
    if a.year < b.year {
      YearsGrow(a.year, b.year);
      InsideYear(a);
      InsideYear(b);
    } else if a.month < b.month {
      MonthsGrow(a.year, a.month, b.month);
    }
  }

  /** Every whole number is the number of a valid date. */
  lemma {:induction false} EveryDayHasADate(number: int) returns (date: Date)
    ensures date.Valid() && date.Number() == number
    decreases if number >= 0 then number else -number
  {
    if number == 0 {
      date := Date(1970, 1, 1);
      EpochIsZero();
    } else if number > 0 {
      var earlier := EveryDayHasADate(number - 1);
      NextIsOneMore(earlier);
      date := earlier.Next();
    } else {
      var later := EveryDayHasADate(number + 1);
      NextIsOneMore(later.Previous());
      date := later.Previous();
    }
  }

  // ---------- The range of int ----------

  predicate FitsInt(x: int) {
    -0x8000_0000 <= x < 0x8000_0000
  }

  /** The signed intermediate values of the computation. */
  predicate StaysInRange(year: int, month: nat, day: nat) {
    var shifted := ShiftedYear(year, month);
    var numerator := if shifted >= 0 then shifted else shifted - 399;
    var start := Era(shifted) * 146097;
    var dayOfEra := AsInt(DayOfEra(shifted, DayOfYear(month, day)));
    && FitsInt(year) && FitsInt(shifted) && FitsInt(numerator)
    && FitsInt(Era(shifted) * 400) && FitsInt(shifted - Era(shifted) * 400)
    && FitsInt(start) && FitsInt(start + dayOfEra) && FitsInt(start + dayOfEra - 719468)
  }

  /** The first and the last date the computation reaches. */
  const FIRST_DATE := Date(-5_877_641, 6, 23)
  const LAST_DATE := Date(5_879_610, 9, 9)

  lemma FirstNumber()
    ensures FIRST_DATE.Valid() && FIRST_DATE.Number() == -0x8000_0000
  {
    hide Date.Number;
    NoUnsignedWrap(FIRST_DATE);
  }

  lemma LastNumber()
    ensures LAST_DATE.Valid() && LAST_DATE.Number() + 719468 == 0x7fff_ffff
  {
    hide Date.Number;
    NoUnsignedWrap(LAST_DATE);
  }

  lemma InRangeByNumber(date: Date)
    requires date.Valid()
    ensures StaysInRange(date.year, date.month, date.day)
            <==> -0x8000_0000 <= date.Number() && date.Number() + 719468 < 0x8000_0000
  {
    NoUnsignedWrap(date);
    EraIsFloor(ShiftedYear(date.year, date.month));
  }

  /**
   The sum is formed in int before it is widened to 64 bits, so a valid date's
   computation avoids overflow exactly when the date is no earlier than 23 June
   -5877641 and no later than 9 September 5879610.
   */
  lemma OverflowFreeExactly(date: Date)
    requires date.Valid()
    ensures StaysInRange(date.year, date.month, date.day) <==> !date.Before(FIRST_DATE) && !LAST_DATE.Before(date)
  {
    hide Date.Number, Date.Before, StaysInRange;
    FirstNumber();
    LastNumber();
    InRangeByNumber(date);
    OrderIsKept(date, FIRST_DATE);
    OrderIsKept(LAST_DATE, date);
  }

  /** The day after the last one overflows. */
  lemma TheNextDayOverflows()
    ensures LAST_DATE.Next() == Date(5_879_610, 9, 10)
    ensures !StaysInRange(5_879_610, 9, 10)
  {
    hide StaysInRange;
    OverflowFreeExactly(LAST_DATE.Next());
  }

  /** Years of four characters, as the only caller parses them, are far inside. */
  lemma FourCharacterYearsFit(date: Date)
    requires date.Valid() && -999 <= date.year <= 9999
    ensures StaysInRange(date.year, date.month, date.day)
  {
    hide StaysInRange;
    OverflowFreeExactly(date);
  }
}
