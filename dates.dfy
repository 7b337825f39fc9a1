/**
 * Calendar days. A date is the proleptic Gregorian ordinal Python's
 * `date.toordinal()` gives it: day 1 is 0001-01-01 and consecutive days are
 * consecutive integers, so "earlier than" is integer `<`. `str(date)` is the
 * ISO form YYYY-MM-DD, computed here the way Python's datetime computes it.
 */
module Dates {
  import opened Wrappers

  /** The ordinal of 9999-12-31, Python's `date.max`. */
  const MaxOrdinal: int := 3652059

  /** A date Python can represent: from 0001-01-01 to 9999-12-31. */
  type Day = d: int | 1 <= d <= MaxOrdinal witness 1

  /** Days in 400, 100 and 4 Gregorian years. */
  const DaysIn400Years: int := 146097
  const DaysIn100Years: int := 36524
  const DaysIn4Years: int := 1461

  /** Python's table of days in the months of a common year before a month; index 0 is unused. */
  function DaysBeforeMonth(month: int): int
  {
    match month
    case 1 => 0   case 2 => 31  case 3 => 59   case 4 => 90
    case 5 => 120 case 6 => 151 case 7 => 181  case 8 => 212
    case 9 => 243 case 10 => 273 case 11 => 304 case 12 => 334
    case _ => -1
  }

  /** Python's table of the lengths of the months of a common year; index 0 is unused. */
  function DaysInMonth(month: int): int
  {
    match month
    case 2 => 28
    case 4 => 30 case 6 => 30 case 9 => 30 case 11 => 30
    case 1 => 31 case 3 => 31 case 5 => 31 case 7 => 31
    case 8 => 31 case 10 => 31 case 12 => 31
    case _ => -1
  }

  datatype Ymd = Ymd(year: int, month: int, day: int)

  /**
   * Year, month and day of an ordinal, by Python's `_ord2ymd`: split the day
   * count into 400-, 100-, 4- and 1-year cycles, estimate the month as
   * `(n + 50) >> 5` and correct the estimate by one when it overshoots.
   */
  function ToYmd(ordinal: Day): (r: Ymd)
    ensures 1 <= r.year <= 9999 && 1 <= r.month <= 12 && 1 <= r.day <= 31
  {
    var n0 := ordinal - 1;
    var n400, r400 := n0 / DaysIn400Years, n0 % DaysIn400Years;
    var n100, r100 := r400 / DaysIn100Years, r400 % DaysIn100Years;
    var n4, r4 := r100 / DaysIn4Years, r100 % DaysIn4Years;
    var n1, n := r4 / 365, r4 % 365;
    var year := n400 * 400 + 1 + n100 * 100 + n4 * 4 + n1;
    if n1 == 4 || n100 == 4 then
      Ymd(year - 1, 12, 31)
    else
      var leap := n1 == 3 && (n4 != 24 || n100 == 3);
      var estimate := (n + 50) / 32;
      var preceding := DaysBeforeMonth(estimate) + (if estimate > 2 && leap then 1 else 0);
      if preceding > n then
        var month := estimate - 1;
        var before := preceding - (DaysInMonth(month) + (if month == 2 && leap then 1 else 0));
        Ymd(year, month, n - before + 1)
      else
        Ymd(year, estimate, n - preceding + 1)
  }

  /** The `width` lowest decimal digits of `n`, most significant first (`%0<width>d` for small n). */
  function FixedDigits(n: nat, width: nat): (r: string)
    ensures |r| == width
    ensures forall k :: 0 <= k < width ==> '0' <= r[k] <= '9'
  {
    if width == 0 then "" else FixedDigits(n / 10, width - 1) + [(n % 10) as char + '0']
  }

  /** `str(date)`: the ISO form YYYY-MM-DD. */
  function IsoDate(d: Day): (r: string)
    ensures |r| == 10 && r[4] == '-' && r[7] == '-'
    ensures forall k :: 0 <= k < 10 && k != 4 && k != 7 ==> '0' <= r[k] <= '9'
  {
    var ymd := ToYmd(d);
    FixedDigits(ymd.year, 4) + "-" + FixedDigits(ymd.month, 2) + "-" + FixedDigits(ymd.day, 2)
  }

  /** The number a string of decimal digits spells, most significant first. */
  function DigitsValue(s: string): int
  {
    if s == [] then 0 else DigitsValue(s[..|s| - 1]) * 10 + (s[|s| - 1] as int - '0' as int)
  }

  /** 10 to the power `k`. */
  function Pow10(k: nat): nat
  {
    if k == 0 then 1 else 10 * Pow10(k - 1)
  }

  /** A number below 10^width is spelled back exactly by its `width` digits. */
  lemma {:induction false} FixedDigitsValue(n: nat, width: nat)
    requires n < Pow10(width)
    ensures DigitsValue(FixedDigits(n, width)) == n
  {
    if width > 0 {
      var s := FixedDigits(n, width);
      assert s[..|s| - 1] == FixedDigits(n / 10, width - 1);
      FixedDigitsValue(n / 10, width - 1);
    }
  }

  /** Reading YYYY-MM-DD back: the year, month and day a well-formed ISO date string names, or None. */
  function ParseIso(s: string): Option<Ymd>
  {
    if |s| == 10 && s[4] == '-' && s[7] == '-' && forall k :: 0 <= k < 10 && k != 4 && k != 7 ==> '0' <= s[k] <= '9' then
      Some(Ymd(DigitsValue(s[..4]), DigitsValue(s[5..7]), DigitsValue(s[8..])))
    else None
  }

  /** `str(date)` spells the date's year, month and day: parsing it gives back `ToYmd`. */
  lemma IsoDateRoundTrip(d: Day)
    ensures ParseIso(IsoDate(d)) == Some(ToYmd(d))
  {
    var ymd := ToYmd(d);
    var s := IsoDate(d);
    assert s[..4] == FixedDigits(ymd.year, 4);
    assert s[5..7] == FixedDigits(ymd.month, 2);
    assert s[8..] == FixedDigits(ymd.day, 2);
    assert Pow10(4) == 10000 && Pow10(2) == 100;
    FixedDigitsValue(ymd.year, 4);
    FixedDigitsValue(ymd.month, 2);
    FixedDigitsValue(ymd.day, 2);
  }
}
