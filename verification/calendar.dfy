/**
 * The simulated calendar: a date of a fixed 12-month, 30-day-per-month year,
 * its ordering through a linear day count, "add N days" arithmetic, and the
 * reminder key that pairs a date with a wall-clock tiebreaker.
 */
module Calendar {
  import opened Wrappers

  /** Rust's `u8` and `u16`. */
  type U8 = x: int | 0 <= x < 0x100
  type U16 = x: int | 0 <= x < 0x1_0000

  /** A date of the simulated calendar (`Date` in src/main.rs). The field
      widths are those of the source; nothing forces month into 1..12 or day
      into 1..30 (see `Valid`). */
  datatype Date = Date(year: U16, month: U8, day: U8)

  /** The value used when no date has ever been observed: the game's start
      date, a well-formed date of the game's years 2200..2999 that is no later
      than any well-formed date of a year after 2199
      (`DefaultDateIsEarliestGameDate` shows that this fixes it). */
  function DefaultDate(): (d: Date)
    ensures Valid(d) && 2199 < d.year < 3000
    ensures forall x :: Valid(x) && x.year > 2199 ==> Le(d, x)
  {
    Date(2200, 1, 1)
  }

  /** Exactly one date meets `DefaultDate`'s contract: 2200.1.1. */
  lemma DefaultDateIsEarliestGameDate(d: Date)
    requires Valid(d) && 2199 < d.year < 3000
    requires forall x :: Valid(x) && x.year > 2199 ==> Le(d, x)
    ensures d == Date(2200, 1, 1)
  {
    assert Le(d, Date(2200, 1, 1));
  }

  /** A date every field of which is inside the calendar's radix. */
  predicate Valid(d: Date) {
    1 <= d.month <= 12 && 1 <= d.day <= 30
  }

  /** The linearisation every comparison goes through: 360-day years and
      30-day months. The source computes it in `u32`, which cannot overflow:
      the largest value is 65535 * 360 + 255 * 30 + 255. */
  function DaysSinceJesus(d: Date): (n: nat)
    ensures n < 0x1_0000_0000
  {
    d.year * 360 + d.month * 30 + d.day
  }

  /** Lexicographic comparison of (year, month, day): the order a reader of
      the calendar expects, used as an independent reference for `Cmp`. */
  function FieldCmp(a: Date, b: Date): Ordering {
    if a.year != b.year then CompareNat(a.year, b.year)
    else if a.month != b.month then CompareNat(a.month, b.month)
    else CompareNat(a.day, b.day)
  }

  /** `Ord::cmp` on dates, through the day count. On dates inside the radix
      it is the calendar order. */
  function Cmp(a: Date, b: Date): (r: Ordering)
    ensures Valid(a) && Valid(b) ==> r == FieldCmp(a, b)
  {
    var r := CompareNat(DaysSinceJesus(a), DaysSinceJesus(b));
    assert Valid(a) && Valid(b) ==> r == FieldCmp(a, b) by {
      if Valid(a) && Valid(b) {
        DayCountOrderIsFieldOrder(a, b);
      }
    }
    r
  }

  /** `PartialOrd::le` on dates, derived from `Cmp`. On dates inside the
      radix it is "the same date, or lexicographically earlier". */
  predicate Le(a: Date, b: Date)
    ensures Valid(a) && Valid(b) ==> (Le(a, b) <==> a == b || FieldCmp(a, b) == Less)
  {
    Cmp(a, b) != Greater
  }

  /** On dates inside the radix the order of day counts is the calendar
      order. */
  lemma DayCountOrderIsFieldOrder(a: Date, b: Date)
    requires Valid(a) && Valid(b)
    ensures CompareNat(DaysSinceJesus(a), DaysSinceJesus(b)) == FieldCmp(a, b)
  {
    if a.year < b.year {
      assert DaysSinceJesus(a) <= a.year * 360 + 390 < b.year * 360 + 31;
    } else if a.year > b.year {
      assert DaysSinceJesus(b) <= b.year * 360 + 390 < a.year * 360 + 31;
    } else if a.month < b.month {
      assert DaysSinceJesus(a) <= a.year * 360 + a.month * 30 + 30 < b.year * 360 + b.month * 30 + 1;
    } else if a.month > b.month {
      assert DaysSinceJesus(b) <= b.year * 360 + b.month * 30 + 30 < a.year * 360 + a.month * 30 + 1;
    }
  }

  /** Inside the radix, two dates compare `Equal` exactly when they are the
      same date, so the derived `Eq` and the hand-written `Ord` agree. */
  lemma CmpEqualIffSame(a: Date, b: Date)
    requires Valid(a) && Valid(b)
    ensures Cmp(a, b) == Equal <==> a == b
  {
  }

  /** Outside the radix they do not: month 0 and day 0 give a second spelling
      of the same day count. Both dates below pass the text parser. */
  lemma DegenerateDatesCompareEqual()
    ensures Date(2200, 0, 30) != Date(2200, 1, 0)
    ensures Cmp(Date(2200, 0, 30), Date(2200, 1, 0)) == Equal
  {
  }

  /** `Cmp` is a total preorder on all dates: antisymmetric in the sense of
      `Flip`, transitive, and `Le` is total. */
  lemma CmpIsTotalPreorder(a: Date, b: Date, c: Date)
    ensures Cmp(b, a) == Cmp(a, b).Flip()
    ensures Le(a, b) || Le(b, a)
    ensures Le(a, b) && Le(b, c) ==> Le(a, c)
    ensures Cmp(a, b) == Less && Le(b, c) ==> Cmp(a, c) == Less
  {
  }

  /** Every condition under which `with_days_added` completes without a
      `u16` overflow or underflow (a panic in a debug build):
      `self.day + days` fits in `u16`, `day - 1` does not go below zero,
      `month_added + self.month - 1` does not go below zero, and
      `self.year + year_added` fits in `u16`. */
  predicate AddDefined(d: Date, days: U16) {
    && d.day + days < 0x1_0000
    && d.day + days >= 1
    && (d.day + days - 1) / 30 + d.month >= 1
    && d.year + ((d.day + days - 1) / 30 + d.month - 1) / 12 < 0x1_0000
  }

  /** Mixed-radix addition of `days` days: days carry into 30-day months,
      months into 12-month years. The result always lies inside the radix and
      its day count is exactly `days` more than the start's, whatever the
      start's month and day were. */
  function WithDaysAdded(d: Date, days: U16): (r: Date)
    requires AddDefined(d, days)
    ensures Valid(r)
    ensures DaysSinceJesus(r) == DaysSinceJesus(d) + days
  {
    var day := d.day + days;
    var monthAdded := (day - 1) / 30;
    var newDay := (day - 1) % 30 + 1;
    var month := monthAdded + d.month - 1;
    var yearAdded := month / 12;
    var newMonth := month % 12 + 1;
    LinearDecomposition(day - 1, month, d.year, d.month);
    Date(d.year + yearAdded, newMonth, newDay)
  }

  /** The arithmetic fact behind `WithDaysAdded`: splitting a day offset into
      months and a month offset into years loses nothing. */
  lemma LinearDecomposition(dayOffset: nat, monthOffset: nat, year: nat, month: nat)
    requires monthOffset == dayOffset / 30 + month - 1
    ensures (year + monthOffset / 12) * 360 + (monthOffset % 12 + 1) * 30 + (dayOffset % 30 + 1)
         == year * 360 + month * 30 + dayOffset + 1
  {
    var ma := dayOffset / 30;
    var ya := monthOffset / 12;
    assert dayOffset == ma * 30 + dayOffset % 30;
    assert monthOffset == ya * 12 + monthOffset % 12;
    calc {
      (year + ya) * 360 + (monthOffset % 12 + 1) * 30 + (dayOffset % 30 + 1);
      year * 360 + (ya * 12 + monthOffset % 12) * 30 + 30 + dayOffset % 30 + 1;
      year * 360 + monthOffset * 30 + 30 + dayOffset % 30 + 1;
      year * 360 + (ma + month) * 30 + dayOffset % 30 + 1;
      year * 360 + month * 30 + dayOffset + 1;
    }
  }

  /** Adding at least one day gives a strictly later date. */
  lemma WithDaysAddedIsLater(d: Date, days: U16)
    requires AddDefined(d, days) && days >= 1
    ensures Cmp(d, WithDaysAdded(d, days)) == Less
    ensures Cmp(WithDaysAdded(d, days), d) == Greater
  {
  }

  /** Inside the radix the day count determines the date. */
  lemma DaysSinceJesusInjective(a: Date, b: Date)
    requires Valid(a) && Valid(b)
    requires DaysSinceJesus(a) == DaysSinceJesus(b)
    ensures a == b
  {
    CmpEqualIffSame(a, b);
  }

  /** Adding in two steps is adding the sum once. */
  lemma WithDaysAddedComposes(d: Date, m: U16, n: U16)
    requires AddDefined(d, m)
    requires AddDefined(WithDaysAdded(d, m), n)
    requires m + n < 0x1_0000 && AddDefined(d, m + n)
    ensures WithDaysAdded(WithDaysAdded(d, m), n) == WithDaysAdded(d, m + n)
  {
    DaysSinceJesusInjective(WithDaysAdded(WithDaysAdded(d, m), n), WithDaysAdded(d, m + n));
  }

  /** Adding to a date inside the radix keeps its day of month when the
      number of days is a whole number of months. */
  lemma WithDaysAddedWholeMonths(d: Date, months: nat)
    requires Valid(d) && months * 30 < 0x1_0000 && AddDefined(d, months * 30)
    ensures WithDaysAdded(d, months * 30).day == d.day
  {
    var r := WithDaysAdded(d, months * 30);
    assert (d.day + months * 30 - 1) % 30 == d.day - 1 by {
      assert d.day + months * 30 - 1 == months * 30 + (d.day - 1);
    }
  }

  /** The worked examples: a month and a year after the default date. */
  lemma WithDaysAddedExamples()
    ensures WithDaysAdded(DefaultDate(), 30) == Date(2200, 2, 1)
    ensures WithDaysAdded(DefaultDate(), 360) == Date(2201, 1, 1)
    ensures Cmp(Date(2200, 1, 1), Date(2200, 1, 2)) == Less
    ensures Cmp(Date(2200, 1, 2), Date(2200, 2, 1)) == Less
    ensures Cmp(Date(2200, 2, 1), Date(2201, 1, 1)) == Less
  {
    var d := DefaultDate();
    assert d == Date(2200, 1, 1);
    assert DaysSinceJesus(WithDaysAdded(d, 30)) == DaysSinceJesus(Date(2200, 2, 1));
    DaysSinceJesusInjective(WithDaysAdded(d, 30), Date(2200, 2, 1));
    assert DaysSinceJesus(WithDaysAdded(d, 360)) == DaysSinceJesus(Date(2201, 1, 1));
    DaysSinceJesusInjective(WithDaysAdded(d, 360), Date(2201, 1, 1));
  }

  /** Both hazards of `with_days_added` are reachable: the `u16` sum of day
      and days overflows near 65535, and a month-0 date (which the text parser
      accepts) underflows on `month_added + month - 1` for a small step. */
  lemma AddHazardsReachable()
    ensures !AddDefined(Date(2200, 1, 1), 65535)
    ensures !AddDefined(Date(2200, 0, 5), 1)
    ensures AddDefined(Date(2200, 0, 5), 26)
  {
  }

  /** Day counts that a date with a `u16` year inside the radix can have:
      from 0.1.1 up to 65535.12.30. */
  predicate DayCountFits(n: int) {
    31 <= n < 0x1_0000 * 360 + 31
  }

  /** The date inside the radix with day count `n`. */
  function FromDays(n: int): (r: Date)
    requires DayCountFits(n)
    ensures Valid(r) && DaysSinceJesus(r) == n
  {
    var o := n - 31;
    var q, rest := o / 360, o % 360;
    SplitDayOffset(o, q, rest);
    Date(q, rest / 30 + 1, rest % 30 + 1)
  }

  /** A day offset is whole years, whole months and remaining days. */
  lemma SplitDayOffset(o: nat, q: nat, rest: nat)
    requires o < 0x1_0000 * 360 && q == o / 360 && rest == o % 360
    ensures q < 0x1_0000 && rest / 30 < 12 && rest % 30 < 30
    ensures q * 360 + (rest / 30) * 30 + rest % 30 == o
  {
    assert o == q * 360 + rest;
    assert rest == (rest / 30) * 30 + rest % 30;
  }

  /** Addition of `n` days as `with_days_added` evidently intends it: the
      day count grows by exactly `n`, with no 16-bit intermediate and no
      dependence on the start lying inside the radix. */
  function AddDays(d: Date, n: nat): (r: Date)
    requires DayCountFits(DaysSinceJesus(d) + n)
    ensures Valid(r)
    ensures DaysSinceJesus(r) == DaysSinceJesus(d) + n
  {
    FromDays(DaysSinceJesus(d) + n)
  }

  /** Wherever `with_days_added` completes, it agrees with `AddDays`. */
  lemma WithDaysAddedAgreesWithAddDays(d: Date, days: U16)
    requires AddDefined(d, days)
    ensures DayCountFits(DaysSinceJesus(d) + days)
    ensures WithDaysAdded(d, days) == AddDays(d, days)
  {
    var r := WithDaysAdded(d, days);
    assert DaysSinceJesus(r) <= r.year * 360 + 390;
    DaysSinceJesusInjective(r, AddDays(d, days));
  }

  /** A reminder key: the target date, with the wall-clock instant of
      creation (nanoseconds since the Unix epoch) as tiebreaker. */
  datatype StampedDate = StampedDate(time: nat, date: Date)

  /** `Ord::cmp` on reminder keys: the date decides, the time only breaks a
      tie between dates that compare `Equal`. Inside the radix, key order is
      lexicographic on (year, month, day, time). */
  function StampedCmp(a: StampedDate, b: StampedDate): (r: Ordering)
    ensures Valid(a.date) && Valid(b.date) ==>
      r == (if a.date != b.date then FieldCmp(a.date, b.date) else CompareNat(a.time, b.time))
  {
    match Cmp(a.date, b.date)
    case Equal => CompareNat(a.time, b.time)
    case o => o
  }

  predicate StampedLe(a: StampedDate, b: StampedDate) {
    StampedCmp(a, b) != Greater
  }

  predicate StampedLess(a: StampedDate, b: StampedDate) {
    StampedCmp(a, b) == Less
  }

  /** The time never overrides a date difference, and it is consulted for
      every pair of keys whose dates tie. */
  lemma StampedTimeOnlyBreaksTies(a: StampedDate, b: StampedDate)
    ensures Cmp(a.date, b.date) != Equal ==> StampedCmp(a, b) == Cmp(a.date, b.date)
    ensures Cmp(a.date, b.date) == Equal ==> (StampedCmp(a, b) == Less <==> a.time < b.time)
    ensures Cmp(a.date, b.date) == Equal ==> (StampedCmp(a, b) == Equal <==> a.time == b.time)
  {
  }

  /** Inside the radix, keys compare `Equal` exactly when they are equal. */
  lemma StampedCmpEqualIffSame(a: StampedDate, b: StampedDate)
    requires Valid(a.date) && Valid(b.date)
    ensures StampedCmp(a, b) == Equal <==> a == b
  {
    CmpEqualIffSame(a.date, b.date);
  }

  /** Key comparison is a total preorder on all keys. */
  lemma StampedCmpIsTotalPreorder(a: StampedDate, b: StampedDate, c: StampedDate)
    ensures StampedCmp(b, a) == StampedCmp(a, b).Flip()
    ensures StampedLe(a, b) || StampedLe(b, a)
    ensures StampedLe(a, b) && StampedLe(b, c) ==> StampedLe(a, c)
  {
  }
}
