/** Calendar dates from day counts. A day is numbered as a spreadsheet serial:
    day 0 is 1899-12-30 (the epoch `new Date(1899, 11, 30)` of the source),
    day n is n whole days later. Conversion to a proleptic Gregorian
    (year, month, day) follows the days-since-0000-03-01 method, with its
    inverse `DaysFromCivil` as the independent definition it is proved against. */
module Calendar {
  import opened Optional
  import opened Text

  /** `Date.parse`, abstracted: the day number (counted as below) of the UTC
      date a string denotes, or `None` for `NaN`. */
  type DateParser = String -> Option<int>

  /** Day 0 (1899-12-30) is day 693899 counted from 0000-03-01. */
  const EpochShift: int := 693899

  datatype Civil = Civil(year: int, month: int, day: int)

  predicate ValidCivil(c: Civil) {
    1 <= c.month <= 12 && 1 <= c.day <= 31
  }

  /** The calendar date of spreadsheet day `n`. */
  function CivilFromDays(n: int): (c: Civil)
    ensures ValidCivil(c)
  {
    var z := n + EpochShift;
    var era := z / 146097;
    var doe := z % 146097;
    var yoe := YearOfEra(doe);
    var y := yoe + era * 400;
    var doy := doe - YearStart(yoe);
    var mp := MonthFromMarch(doy);
    var d := doy - MonthStart(mp) + 1;
    var m := if mp < 10 then mp + 3 else mp - 9;
    Civil(if m <= 2 then y + 1 else y, m, d)
  }

  /** Year within the 400-year era of day-of-era `doe` (years start on 1 March):
      the last year whose first day is not after `doe`. */
  function YearOfEra(doe: int): (yoe: int)
    requires 0 <= doe < 146097
    ensures 0 <= yoe < 400
    ensures 0 <= doe - YearStart(yoe) < 366
  {
    ScanYear(doe, doe / 366)
  }

  function ScanYear(doe: int, y: int): (yoe: int)
    requires 0 <= doe < 146097 && 0 <= y < 400 && YearStart(y) <= doe
    ensures y <= yoe < 400
    ensures 0 <= doe - YearStart(yoe) < 366
    decreases 400 - y
  {
    if y < 399 && YearStart(y + 1) <= doe then ScanYear(doe, y + 1)
    else
      assert YearStart(y + 1) - YearStart(y) <= 366 by { YearLength(y); }
      y
  }

  lemma YearLength(y: int)
    requires 0 <= y
    ensures 365 <= YearStart(y + 1) - YearStart(y) <= 366
  {
    if (y + 1) / 100 != y / 100 {
      assert (y + 1) % 100 == 0;
      assert (y + 1) / 4 != y / 4;
    }
  }

  /** First day-of-era of year-of-era `yoe`. */
  function YearStart(yoe: int): int {
    365 * yoe + yoe / 4 - yoe / 100
  }

  /** Month index counted from March (0 = March, 11 = February) of day-of-year `doy`. */
  function MonthFromMarch(doy: int): (mp: int)
    requires 0 <= doy < 366
    ensures 0 <= mp < 12
    ensures 0 <= doy - MonthStart(mp) < 31
  {
    (5 * doy + 2) / 153
  }

  /** First day-of-year of month index `mp` (counted from March). */
  function MonthStart(mp: int): int {
    (153 * mp + 2) / 5
  }

  /** The spreadsheet day number of a calendar date (the inverse direction). */
  function DaysFromCivil(c: Civil): int
    requires ValidCivil(c)
  {
    var y := if c.month <= 2 then c.year - 1 else c.year;
    var era := y / 400;
    var yoe := y - era * 400;
    var mp := if c.month > 2 then c.month - 3 else c.month + 9;
    var doy := MonthStart(mp) + c.day - 1;
    era * 146097 + YearStart(yoe) + doy - EpochShift
  }

  /** A `Date` holds at most 8.64e15 ms either side of 1970-01-01, which is
      day 25569 here: 10^8 days each way. */
  const MaxDays: int := 100000000
  const UnixEpochDay: int := 25569

  predicate InTimeRange(day: int) {
    -MaxDays <= day - UnixEpochDay <= MaxDays
  }

  /** `new Date(epoch.getTime() + x * 86400000)` is a valid date: its time
      value, (x - 25569) days from 1970-01-01, is within the range. */
  predicate SerialInRange(x: real) {
    -MaxDays as real <= x - UnixEpochDay as real <= MaxDays as real
  }

  /** A serial in range falls on a day in range; the converse fails only for
      a fraction past the last day. */
  lemma SerialDay(x: real)
    ensures SerialInRange(x) ==> InTimeRange(x.Floor)
    ensures InTimeRange(x.Floor) && x.Floor - UnixEpochDay < MaxDays ==> SerialInRange(x)
  {
  }

  /** `getFullYear` of the date `n` days after the epoch. */
  function YearOf(n: int): int {
    CivilFromDays(n).year
  }

  /** Converting a day to a calendar date and back gives the same day. */
  lemma CivilRoundTrip(n: int)
    ensures DaysFromCivil(CivilFromDays(n)) == n
  {
    var z := n + EpochShift;
    var era := z / 146097;
    var doe := z % 146097;
    var yoe := YearOfEra(doe);
    var y := yoe + era * 400;
    assert y / 400 == era && y - era * 400 == yoe by { DivAfterShift(yoe, era); }
    var doy := doe - YearStart(yoe);
    var mp := MonthFromMarch(doy);
    var c := CivilFromDays(n);
    assert c.month <= 2 <==> mp >= 10;
    assert (if c.month <= 2 then c.year - 1 else c.year) == y;
    assert (if c.month > 2 then c.month - 3 else c.month + 9) == mp;
  }

  /** Serial 38198 (the example in the source's doc comment) is 30 July 2004;
      serial 2 is 1 January 1900. */
  lemma SerialExamples()
    ensures CivilFromDays(38198) == Civil(2004, 7, 30)
    ensures CivilFromDays(2) == Civil(1900, 1, 1)
  {
    assert 732097 / 146097 == 5 && 732097 % 146097 == 1612;
    assert YearOfEra(1612) == 4 by { assert ScanYear(1612, 4) == 4; }
    assert MonthFromMarch(151) == 4;
    assert 693901 / 146097 == 4 && 693901 % 146097 == 109513;
    assert YearOfEra(109513) == 299 by { assert ScanYear(109513, 299) == 299; }
    assert MonthFromMarch(306) == 10;
  }

  lemma DivAfterShift(yoe: int, era: int)
    requires 0 <= yoe < 400
    ensures (yoe + era * 400) / 400 == era
  {
  }

  /** `date.toISOString().split('T')[0]` for years 0..9999: "YYYY-MM-DD". */
  function IsoDate(n: int): (s: String)
    requires 0 <= YearOf(n) <= 9999
    ensures IsoShaped(s)
  {
    var c := CivilFromDays(n);
    var s := Pad(c.year, 4) + "-" + Pad(c.month, 2) + "-" + Pad(c.day, 2);
    assert s[..4] == Pad(c.year, 4);
    assert s[5..7] == Pad(c.month, 2);
    assert s[8..] == Pad(c.day, 2);
    s
  }

  /** The last `width` decimal digits of `n`, zero-padded on the left. */
  function Pad(n: nat, width: nat): (s: String)
    ensures |s| == width && AllDigits(s)
    ensures n < Pow10(width) ==> DigitsValue(s) == n
  {
    if width == 0 then []
    else
      var s := Pad(n / 10, width - 1) + [DigitChar(n % 10)];
      assert s[..|s| - 1] == Pad(n / 10, width - 1);
      s
  }

  /** Four digits, a dash, two digits, a dash, two digits. */
  predicate IsoShaped(s: String) {
    |s| == 10 && s[4] == '-' && s[7] == '-'
    && AllDigits(s[..4]) && AllDigits(s[5..7]) && AllDigits(s[8..])
  }

  /** Reads a "YYYY-MM-DD" string back as a day number, `None` when the
      month or day is out of range. */
  function IsoDay(s: String): (r: Option<int>)
    requires IsoShaped(s)
  {
    var c := Civil(DigitsValue(s[..4]), DigitsValue(s[5..7]), DigitsValue(s[8..]));
    if ValidCivil(c) then Some(DaysFromCivil(c)) else None
  }

  /** Rendering a day as "YYYY-MM-DD" and reading it back gives the same day. */
  lemma IsoRoundTrip(n: int)
    requires 0 <= YearOf(n) <= 9999
    ensures IsoDay(IsoDate(n)) == Some(n)
  {
    var c := CivilFromDays(n);
    var s := IsoDate(n);
    assert Pow10(2) == 100 && Pow10(4) == 10000;
    assert s[..4] == Pad(c.year, 4);
    assert s[5..7] == Pad(c.month, 2);
    assert s[8..] == Pad(c.day, 2);
    CivilRoundTrip(n);
  }
}
