/**
 Virtual time: guest ticks to absolute-time units with a carried remainder,
 durations to guest ticks, and the tick budget that keeps a slice from running
 past the display's vertical sync.
 */
module GuestClock {
  import opened Wrappers
  import Division

  const MAX: nat := 0xffff_ffff_ffff_ffff
  const UNITS_PER_SECOND: nat := 1_000_000_000

  type Rate = n: nat | 0 < n < 0x1_0000_0000 witness 1

  datatype TimeError = ZeroRate | Overflow

  function U64(x: nat): (r: nat)
    ensures r <= MAX
  {
    x % (MAX + 1)
  }

  /** Unsigned division and remainder. */
  function Div(a: nat, d: nat): nat
    requires d > 0
  {
    a / d
  }

  function Mod(a: nat, d: nat): (r: nat)
    requires d > 0
    ensures r < d
  {
    a % d
  }

  lemma DivMod(a: nat, d: nat)
    requires d > 0
    ensures a == Div(a, d) * d + Mod(a, d)
  {
    Division.Split(a, d);
  }

  lemma DivModUnique(a: nat, d: nat, q: nat, r: nat)
    requires r < d && a == q * d + r
    ensures Div(a, d) == q && Mod(a, d) == r
  {
    Division.Unique(a, d, q, r);
  }

  lemma DivAtMost(a: nat, d: nat, limit: nat)
    requires d > 0
    ensures Div(a, d) <= limit <==> a < (limit + 1) * d
  {
    Division.Below(a, limit + 1, d);
  }

  // ---------- Ticks to units ----------

  /** What one call returns and the remainder it leaves; unsigned sums wrap. */
  function Convert(rate: Rate, remainder: nat, ticks: nat): Result<(nat, nat), TimeError> {
    var wholeSeconds := Div(ticks, rate);
    if wholeSeconds > MAX / UNITS_PER_SECOND then Failure(Overflow)
    else
      var scaledFraction := U64(Mod(ticks, rate) * UNITS_PER_SECOND + remainder);
      Success((U64(U64(wholeSeconds * UNITS_PER_SECOND) + Div(scaledFraction, rate)), Mod(scaledFraction, rate)))
  }

  class GuestTickClock {
    const ticksPerSecond: Rate
    var remainder: nat

    predicate Valid()
      reads this
    {
      remainder < ticksPerSecond
    }

    constructor (rate: Rate)
      ensures Valid() && ticksPerSecond == rate && remainder == 0
    {
      ticksPerSecond, remainder := rate, 0;
    }

    /** The public constructor, which refuses a zero rate. */
    static method Create(rate: nat) returns (clock: Result<GuestTickClock, TimeError>)
      requires rate < 0x1_0000_0000
      ensures clock.Failure? <==> rate == 0
      ensures clock.Success? ==> clock.value.Valid() && clock.value.ticksPerSecond == rate && clock.value.remainder == 0
    {
      if rate == 0 {
        return Failure(ZeroRate);
      }
      var created := new GuestTickClock(rate);
      return Success(created);
    }

    method AbsoluteTimeUnits(ticks: nat) returns (units: Result<nat, TimeError>)
      requires Valid() && ticks <= MAX
      modifies this
      ensures Valid()
      ensures match Convert(ticksPerSecond, old(remainder), ticks)
              case Failure(error) => units == Failure(error) && remainder == old(remainder)
              case Success((value, rest)) => units == Success(value) && remainder == rest
    {
      hide Div, Mod, U64;
      var wholeSeconds := Div(ticks, ticksPerSecond);
      if wholeSeconds > MAX / UNITS_PER_SECOND {
        return Failure(Overflow);
      }
      var fractionalTicks := Mod(ticks, ticksPerSecond);
      var scaledFraction := U64(fractionalTicks * UNITS_PER_SECOND + remainder);
      remainder := Mod(scaledFraction, ticksPerSecond);
      return Success(U64(U64(wholeSeconds * UNITS_PER_SECOND) + Div(scaledFraction, ticksPerSecond)));
    }
  }

  function Scaled(rate: Rate, remainder: nat, ticks: nat): nat {
    Mod(ticks, rate) * UNITS_PER_SECOND + remainder
  }

  /** The unbounded value of a conversion. */
  function Exact(rate: Rate, remainder: nat, ticks: nat): nat {
    Div(ticks * UNITS_PER_SECOND + remainder, rate)
  }

  /** The split into whole seconds and a fraction computes the quotient of the whole. */
  lemma SplitIsExact(rate: Rate, remainder: nat, ticks: nat)
    requires remainder < rate
    ensures Scaled(rate, remainder, ticks) <= MAX && Div(Scaled(rate, remainder, ticks), rate) <= UNITS_PER_SECOND
    ensures Exact(rate, remainder, ticks)
            == Div(ticks, rate) * UNITS_PER_SECOND + Div(Scaled(rate, remainder, ticks), rate)
    ensures Mod(ticks * UNITS_PER_SECOND + remainder, rate) == Mod(Scaled(rate, remainder, ticks), rate)
  {
    hide Div, Mod;
    var scaled := Scaled(rate, remainder, ticks);
    DivMod(ticks, rate);
    DivMod(scaled, rate);
    Compose(ticks, Div(ticks, rate), rate, Mod(ticks, rate), remainder, Div(scaled, rate), Mod(scaled, rate));
    DivAtMost(scaled, rate, UNITS_PER_SECOND);
    DivModUnique(ticks * UNITS_PER_SECOND + remainder, rate,
                 Div(ticks, rate) * UNITS_PER_SECOND + Div(scaled, rate), Mod(scaled, rate));
  }

  lemma Compose(ticks: nat, whole: nat, rate: nat, fraction: nat, remainder: nat, q: nat, r: nat)
    requires ticks == whole * rate + fraction
    requires fraction * UNITS_PER_SECOND + remainder == q * rate + r
    ensures ticks * UNITS_PER_SECOND + remainder == (whole * UNITS_PER_SECOND + q) * rate + r
  {
    var product := whole * rate;
    assert whole * UNITS_PER_SECOND * rate == product * UNITS_PER_SECOND;
  }

  /** What the guard on the whole seconds leaves to the fraction. */
  predicate Fits(rate: Rate, remainder: nat, ticks: nat) {
    || Div(ticks, rate) < MAX / UNITS_PER_SECOND
    || (Div(ticks, rate) == MAX / UNITS_PER_SECOND
        && Div(Scaled(rate, remainder, ticks), rate) <= MAX % UNITS_PER_SECOND)
  }

  /**
   The result is the exact quotient precisely when the seconds are below the
   guard's limit, or at it with a fraction that still fits 64 bits; the guard
   alone lets the remaining fractions at the limit wrap.
   */
  lemma ConvertIsExact(rate: Rate, remainder: nat, ticks: nat)
    requires remainder < rate
    ensures Convert(rate, remainder, ticks).Failure? <==> Div(ticks, rate) > MAX / UNITS_PER_SECOND
    ensures Convert(rate, remainder, ticks)
            == Success((Exact(rate, remainder, ticks), Mod(ticks * UNITS_PER_SECOND + remainder, rate)))
            <==> Fits(rate, remainder, ticks)
    ensures Fits(rate, remainder, ticks) <==> Exact(rate, remainder, ticks) <= MAX
  {
    hide Div, Mod, U64, Exact;
    SplitIsExact(rate, remainder, ticks);
    Small(Div(ticks, rate), Div(Scaled(rate, remainder, ticks), rate));
    Unwrapped(Scaled(rate, remainder, ticks));
  }

  lemma Unwrapped(x: nat)
    requires x <= MAX
    ensures U64(x) == x
  {}

  lemma Small(whole: nat, fraction: nat)
    requires fraction <= UNITS_PER_SECOND
    ensures var limit := MAX / UNITS_PER_SECOND;
            && (whole <= limit ==> U64(whole * UNITS_PER_SECOND) == whole * UNITS_PER_SECOND)
            && (whole * UNITS_PER_SECOND + fraction <= MAX
                <==> whole < limit || (whole == limit && fraction <= MAX % UNITS_PER_SECOND))
            && (whole <= limit ==>
                 (U64(whole * UNITS_PER_SECOND + fraction) == whole * UNITS_PER_SECOND + fraction
                  <==> whole * UNITS_PER_SECOND + fraction <= MAX))
  {}

  /** The guard is not enough: four ticks a second, three quarters of a second into the last whole one. */
  lemma GuardAdmitsWrap()
    ensures Convert(4, 0, 73_786_976_295) == Success((40_448_384, 0))
    ensures Exact(4, 0, 73_786_976_295) > MAX
  {}

  // ---------- No drift ----------

  /** The units returned over a run of calls, and the remainder left, as long as every result fits. */
  function Total(rate: Rate, ticks: seq<nat>): Option<(nat, nat)> {
    if ticks == [] then Some((0, 0))
    else
      match Total(rate, ticks[..|ticks| - 1])
      case None => None
      case Some((units, carried)) =>
        var last := ticks[|ticks| - 1];
        if !Fits(rate, carried, last) || Convert(rate, carried, last).Failure? then None
        else
          var (value, remainder) := Convert(rate, carried, last).value;
          Some((units + value, remainder))
  }

  function Sum(ticks: seq<nat>): nat {
    if ticks == [] then 0 else Sum(ticks[..|ticks| - 1]) + ticks[|ticks| - 1]
  }

  /** However the ticks are cut into calls, the units returned add up to the quotient of the total. */
  lemma {:induction false} NoDrift(rate: Rate, ticks: seq<nat>)
    requires Total(rate, ticks).Some?
    ensures Total(rate, ticks)
            == Some((Div(Sum(ticks) * UNITS_PER_SECOND, rate), Mod(Sum(ticks) * UNITS_PER_SECOND, rate)))
  {
    hide Div, Mod, Convert, Fits, Exact;
    if ticks == [] {
      DivModUnique(0, rate, 0, 0);
    } else {
      var last, start := ticks[|ticks| - 1], ticks[..|ticks| - 1];
      NoDrift(rate, start);
      var carried := Total(rate, start).value.1;
      ConvertIsExact(rate, carried, last);
      Carry(rate, Sum(start) * UNITS_PER_SECOND, last * UNITS_PER_SECOND);
      ExactIs(rate, carried, last);
    }
  }

  lemma ExactIs(rate: Rate, remainder: nat, ticks: nat)
    ensures Exact(rate, remainder, ticks) == Div(ticks * UNITS_PER_SECOND + remainder, rate)
  {}

  /** Dividing in two steps with the remainder carried is dividing the sum. */
  lemma Carry(rate: nat, a: nat, b: nat)
    requires rate > 0
    ensures Div(a + b, rate) == Div(a, rate) + Div(b + Mod(a, rate), rate)
    ensures Mod(a + b, rate) == Mod(b + Mod(a, rate), rate)
  {
    hide Div, Mod;
    var rest := b + Mod(a, rate);
    DivMod(a, rate);
    DivMod(rest, rate);
    assert (Div(a, rate) + Div(rest, rate)) * rate == Div(a, rate) * rate + Div(rest, rate) * rate;
    DivModUnique(a + b, rate, Div(a, rate) + Div(rest, rate), Mod(rest, rate));
  }

  // ---------- Durations to ticks ----------

  function DurationToGuestTicks(value: nat, unitsPerSecond: nat, guestTicksPerSecond: nat): Result<nat, TimeError> {
    if unitsPerSecond == 0 || guestTicksPerSecond == 0 then Failure(ZeroRate)
    else
      var wholeSeconds, fractionalUnits := Div(value, unitsPerSecond), Mod(value, unitsPerSecond);
      if wholeSeconds > Div(MAX, guestTicksPerSecond) || fractionalUnits > Div(MAX, guestTicksPerSecond) then
        Failure(Overflow)
      else
        var wholeTicks := U64(Times(wholeSeconds, guestTicksPerSecond));
        var fractionalTicks := Div(U64(Times(fractionalUnits, guestTicksPerSecond)), unitsPerSecond);
        if fractionalTicks > MAX - wholeTicks then Failure(Overflow)
        else Success(U64(wholeTicks + fractionalTicks))
  }

  function Times(a: nat, b: nat): nat {
    a * b
  }

  /** The exact number of whole ticks in a duration. */
  function Floor(value: nat, units: nat, rate: nat): nat
    requires units > 0
  {
    Div(Times(value, rate), units)
  }

  lemma FloorSplits(value: nat, units: nat, rate: nat)
    requires units > 0
    ensures Floor(value, units, rate)
            == Times(Div(value, units), rate) + Div(Times(Mod(value, units), rate), units)
  {
    hide Div, Mod;
    var whole, fraction := Div(value, units), Mod(value, units);
    var product := Times(fraction, rate);
    DivMod(value, units);
    DivMod(product, units);
    Spread(whole, units, fraction, rate);
    var q := Div(product, units);
    assert (whole * rate + q) * units == whole * rate * units + q * units;
    DivModUnique(Times(value, rate), units, whole * rate + q, Mod(product, units));
  }

  lemma Spread(whole: nat, units: nat, fraction: nat, rate: nat)
    ensures (whole * units + fraction) * rate == whole * rate * units + fraction * rate
  {
    assert (whole * units) * rate == whole * rate * units;
  }

  lemma TimesAtMost(x: nat, rate: nat)
    requires rate > 0
    ensures x > Div(MAX, rate) <==> Times(x, rate) > MAX
  {
    Division.Below(MAX, x, rate);
  }

  /**
   The conversion is the exact floor. It fails exactly when a rate is zero, or that
   floor, or the product formed for the fraction of a second, does not fit 64 bits.
   */
  lemma DurationIsFloor(value: nat, units: nat, rate: nat)
    ensures DurationToGuestTicks(value, units, rate)
            == if units == 0 || rate == 0 then Failure(ZeroRate)
               else if Floor(value, units, rate) <= MAX && Times(Mod(value, units), rate) <= MAX
               then Success(Floor(value, units, rate)) else Failure(Overflow)
  {
    hide Div, Mod, Times, U64, Floor;
    if units == 0 || rate == 0 {
      return;
    }
    FloorSplits(value, units, rate);
    var whole, fraction := Div(value, units), Mod(value, units);
    TimesAtMost(whole, rate);
    TimesAtMost(fraction, rate);
    if Times(whole, rate) <= MAX && Times(fraction, rate) <= MAX {
      Unwrapped(Times(whole, rate));
      Unwrapped(Times(fraction, rate));
      if Floor(value, units, rate) <= MAX {
        Unwrapped(Floor(value, units, rate));
      }
    }
  }

  /** With a billion units to the second and a 32-bit rate only the floor itself can overflow. */
  lemma DurationOfUnits(value: nat, rate: Rate)
    ensures DurationToGuestTicks(value, UNITS_PER_SECOND, rate)
            == if Floor(value, UNITS_PER_SECOND, rate) <= MAX
               then Success(Floor(value, UNITS_PER_SECOND, rate)) else Failure(Overflow)
  {
    hide Div, Mod, Floor, DurationToGuestTicks;
    DurationIsFloor(value, UNITS_PER_SECOND, rate);
    Division.Monotone(Mod(value, UNITS_PER_SECOND), UNITS_PER_SECOND, rate);
  }

  // ---------- The vertical-sync budget ----------

  /** The ticks a slice may run when the display's next deadline is ahead. */
  function Budget(deadline: nat, now: nat, rate: Rate): Result<Option<nat>, TimeError> {
    if deadline <= now then Success(None)
    else
      match DurationToGuestTicks(deadline - now, UNITS_PER_SECOND, rate)
      case Failure(error) => Failure(error)
      case Success(ticks) => Success(Some(if ticks < 1 then 1 else ticks))
  }

  function Capped(slice: nat, budget: Option<nat>): nat {
    if budget.Some? && budget.value < slice then budget.value else slice
  }

  /**
   A slice capped at the budget advances virtual time by at most the distance
   to the deadline, whatever remainder was carried; when the distance is
   shorter than one tick, by at most one tick's units, rounded up.
   */
  lemma CappedSliceStopsAtDeadline(deadline: nat, now: nat, rate: Rate, slice: nat, remainder: nat)
    requires remainder < rate && now < deadline <= MAX && Budget(deadline, now, rate).Success?
    ensures var advance := Convert(rate, remainder, Capped(slice, Budget(deadline, now, rate).value));
            && advance.Success?
            && advance.value.0 <= if Times(deadline - now, rate) >= UNITS_PER_SECOND
                                  then deadline - now else Div(UNITS_PER_SECOND, rate) + 1
  {
    var distance := deadline - now;
    var ticks := Capped(slice, Budget(deadline, now, rate).value);
    hide Div, Mod, Times, DurationToGuestTicks, Convert, Exact;
    DurationOfUnits(distance, rate);
    var reach := Times(distance, rate);
    DivMod(reach, UNITS_PER_SECOND);
    DivMod(UNITS_PER_SECOND, rate);
    NextTick(distance, rate);
    NextTick(Div(UNITS_PER_SECOND, rate) + 1, rate);
    NextTick(Div(UNITS_PER_SECOND, rate), rate);
    TimesIs(Div(UNITS_PER_SECOND, rate), rate);
    DivSmall(rate);
    var limit := if reach >= UNITS_PER_SECOND then distance else Div(UNITS_PER_SECOND, rate) + 1;
    DivAtMost(ticks * UNITS_PER_SECOND + remainder, rate, limit);
    ExactIs(rate, remainder, ticks);
    ConvertIsExact(rate, remainder, ticks);
  }

  /** A slice is cut down to the budget, and only to it. */
  lemma CappedExactly(slice: nat, budget: Option<nat>)
    ensures Capped(slice, budget) <= slice && (budget.Some? ==> Capped(slice, budget) <= budget.value)
    ensures Capped(slice, budget) == slice || (budget.Some? && Capped(slice, budget) == budget.value)
  {}

  /**
   The budget is there exactly when the deadline is ahead. It is the largest
   number of ticks that does not pass the deadline, but at least one.
   */
  lemma BudgetIsLargest(deadline: nat, now: nat, rate: Rate)
    requires Budget(deadline, now, rate).Success?
    ensures var budget := Budget(deadline, now, rate).value;
            && (budget.Some? <==> now < deadline)
            && (budget.Some? ==>
                 && budget.value >= 1
                 && (budget.value > 1 ==> budget.value * UNITS_PER_SECOND <= (deadline - now) * rate)
                 && (budget.value + 1) * UNITS_PER_SECOND > (deadline - now) * rate)
  {
    if now < deadline {
      var distance := deadline - now;
      hide Div, Mod, Times, DurationToGuestTicks;
      DurationOfUnits(distance, rate);
      TimesIs(distance, rate);
      DivMod(Times(distance, rate), UNITS_PER_SECOND);
    }
  }

  /** One tick more than the budget reaches the deadline on the clock too, whatever remainder was carried. */
  lemma OneMoreTickReachesDeadline(deadline: nat, now: nat, rate: Rate, remainder: nat)
    requires remainder < rate && now < deadline && Budget(deadline, now, rate).Success?
    ensures Budget(deadline, now, rate).value.Some?
    ensures var ticks := Budget(deadline, now, rate).value.value + 1;
            Fits(rate, remainder, ticks) ==>
              Convert(rate, remainder, ticks).Success? && Convert(rate, remainder, ticks).value.0 >= deadline - now
  {
    BudgetIsLargest(deadline, now, rate);
    hide Div, Mod, Budget, Convert, Exact, Fits;
    var ticks := Budget(deadline, now, rate).value.value + 1;
    ConvertIsExact(rate, remainder, ticks);
    ExactIs(rate, remainder, ticks);
    var total := ticks * UNITS_PER_SECOND + remainder;
    if deadline - now > 0 {
      DivAtMost(total, rate, deadline - now - 1);
    }
  }

  lemma NextTick(distance: nat, rate: nat)
    ensures Times(distance + 1, rate) == Times(distance, rate) + rate
    ensures (distance + 1) * rate == Times(distance, rate) + rate
  {}

  lemma TimesIs(a: nat, b: nat)
    ensures Times(a, b) == a * b
  {}

  lemma DivSmall(rate: Rate)
    ensures Div(UNITS_PER_SECOND, rate) <= UNITS_PER_SECOND
  {
    DivAtMost(UNITS_PER_SECOND, rate, UNITS_PER_SECOND);
  }
}
