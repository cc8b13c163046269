/** The packed real-time clock of the inverter: three words holding year/month, day/hour and minute/second. */
module InverterClock {
  import opened Common

  datatype DateTime = DateTime(year: int, month: int, day: int, hour: int, minute: int, second: int)

  /** A decoded clock: the fields, and whether they name a real date and time. */
  datatype Reading = Reading(value: DateTime, valid: bool)

  // ----- calendar -----

  predicate Leap(year: int) {
    year % 4 == 0 && (year % 100 != 0 || year % 400 == 0)
  }

  function DaysInMonth(year: int, month: int): int {
    if month == 2 then (if Leap(year) then 29 else 28)
    else if month in {4, 6, 9, 11} then 30
    else 31
  }

  function DaysBeforeMonth(year: int, month: int): int
    requires 1 <= month <= 12
  {
    [0, 31, 59, 90, 120, 151, 181, 212, 243, 273, 304, 334][month - 1] + (if month > 2 && Leap(year) then 1 else 0)
  }

  /** Leap days up to the end of a year. */
  function LeapDays(year: int): int {
    year / 4 - year / 100 + year / 400
  }

  /** Days from 1 January of year 1 to the given date, in closed form; the day may overflow its month. */
  function DayNumber(year: int, month: int, day: int): int
    requires year >= 1 && 1 <= month <= 12
  {
    365 * (year - 1) + LeapDays(year - 1) + DaysBeforeMonth(year, month) + day
  }

  /** The date a standard-library date constructor makes of a day that may overflow its month. */
  function Normalize(year: int, month: int, day: int): (r: (int, int, int))
    requires 1 <= month <= 12
    decreases day
  {
    if day <= DaysInMonth(year, month) then (year, month, day)
    else if month == 12 then Normalize(year + 1, 1, day - DaysInMonth(year, month))
    else Normalize(year, month + 1, day - DaysInMonth(year, month))
  }

  lemma Fours(year: int)
    ensures year / 4 == (year - 1) / 4 + (if year % 4 == 0 then 1 else 0)
  {
  }

  lemma Centuries(year: int)
    ensures year / 100 == (year - 1) / 100 + (if year % 100 == 0 then 1 else 0)
  {
  }

  lemma Cycles(year: int)
    ensures year / 400 == (year - 1) / 400 + (if year % 400 == 0 then 1 else 0)
  {
  }

  lemma CyclesAreCenturies(year: int)
    requires year % 400 == 0
    ensures year % 100 == 0
  {
    MultipleOf(100, 4 * (year / 400), year);
  }

  lemma MultipleOf(cycle: int, k: int, year: int)
    requires cycle in {4, 100} && year == cycle * k
    ensures year % cycle == 0
  {
    if cycle == 4 {
      assert year % 4 == 0;
    } else {
      assert year % 100 == 0;
    }
  }

  lemma CenturiesAreFours(year: int)
    requires year % 100 == 0
    ensures year % 4 == 0
  {
    MultipleOf(4, 25 * (year / 100), year);
  }

  lemma LeapDaysGrow(year: int)
    ensures LeapDays(year) == LeapDays(year - 1) + (if Leap(year) then 1 else 0)
  {
    Fours(year);
    Centuries(year);
    Cycles(year);
    if year % 400 == 0 {
      CyclesAreCenturies(year);
    }
    if year % 100 == 0 {
      CenturiesAreFours(year);
    }
  }

  /** A year is as long as its leap rule says, and months are laid end to end within it. */
  lemma YearLength(year: int)
    requires year >= 1
    ensures DayNumber(year + 1, 1, 1) == DayNumber(year, 1, 1) + (if Leap(year) then 366 else 365)
  {
    LeapDaysGrow(year);
  }

  lemma MonthLength(year: int, month: int)
    requires 1 <= month < 12
    ensures DaysBeforeMonth(year, month + 1) == DaysBeforeMonth(year, month) + DaysInMonth(year, month)
  {
  }

  /** Normalising keeps the day number and ends on a date that exists. */
  lemma {:induction false} NormalizeKeepsDay(year: int, month: int, day: int)
    requires year >= 1 && 1 <= month <= 12 && 1 <= day
    ensures var (y, m, d) := Normalize(year, month, day);
            && y >= year && 1 <= m <= 12 && 1 <= d <= DaysInMonth(y, m)
            && DayNumber(y, m, d) == DayNumber(year, month, day)
    decreases day
  {
    if day > DaysInMonth(year, month) {
      if month == 12 {
        YearLength(year);
        NormalizeKeepsDay(year + 1, 1, day - 31);
      } else {
        MonthLength(year, month);
        NormalizeKeepsDay(year, month + 1, day - DaysInMonth(year, month));
      }
    }
  }

  /** Two existing dates with one day number are one date, so the normal form is the only possible one. */
  lemma {:induction false} DayNumberInjective(y0: int, m0: int, d0: int, y1: int, m1: int, d1: int)
    requires y0 >= 1 && 1 <= m0 <= 12 && 1 <= d0 <= DaysInMonth(y0, m0)
    requires y1 >= 1 && 1 <= m1 <= 12 && 1 <= d1 <= DaysInMonth(y1, m1)
    requires DayNumber(y0, m0, d0) == DayNumber(y1, m1, d1)
    ensures (y0, m0, d0) == (y1, m1, d1)
  {
    if y0 < y1 {
      YearFollows(y0, m0, d0, y1, m1, d1);
    } else if y1 < y0 {
      YearFollows(y1, m1, d1, y0, m0, d0);
    }
  }

  lemma YearFollows(y0: int, m0: int, d0: int, y1: int, m1: int, d1: int)
    requires 1 <= y0 < y1 && 1 <= m0 <= 12 && 1 <= d0 <= DaysInMonth(y0, m0) && 1 <= m1 <= 12 && 1 <= d1
    ensures DayNumber(y0, m0, d0) < DayNumber(y1, m1, d1)
  {
    assert DaysBeforeMonth(y0, m0) + d0 <= (if Leap(y0) then 366 else 365);
    assert DaysBeforeMonth(y1, m1) >= 0;
    FirstDaysGrow(y0, y1);
  }

  lemma {:induction false} FirstDaysGrow(y0: int, y1: int)
    requires 1 <= y0 < y1
    ensures DayNumber(y0, 1, 1) + (if Leap(y0) then 366 else 365) <= DayNumber(y1, 1, 1)
    decreases y1
  {
    if y0 + 1 < y1 {
      FirstDaysGrow(y0, y1 - 1);
      YearLength(y1 - 1);
    } else {
      YearLength(y0);
    }
  }

  // ----- validation and packing -----

  predicate InRange(v: DateTime) {
    && 2000 <= v.year <= 2099
    && 1 <= v.month <= 12 && 1 <= v.day <= 31
    && 0 <= v.hour <= 23 && 0 <= v.minute <= 59 && 0 <= v.second <= 59
  }

  /** The check made before a clock is written: ranges, then a round trip through the normalised date. */
  predicate Validate(v: DateTime) {
    InRange(v) && Normalize(v.year, v.month, v.day) == (v.year, v.month, v.day)
  }

  /** A Gregorian date and time of the years 2000 to 2099, of which every fourth is a leap year. */
  predicate Gregorian(v: DateTime) {
    && 2000 <= v.year <= 2099
    && 1 <= v.month <= 12
    && 1 <= v.day <= [31, if v.year % 4 == 0 then 29 else 28, 31, 30, 31, 30, 31, 31, 30, 31, 30, 31][v.month - 1]
    && 0 <= v.hour <= 23 && 0 <= v.minute <= 59 && 0 <= v.second <= 59
  }

  /** A word with one number in its high byte and one in its low byte, and back. */
  function Pack(high: int, low: int): Word
    requires 0 <= high < 0x100 && 0 <= low < 0x100
  {
    high * 0x100 + low
  }

  function High(w: Word): int { w / 0x100 }

  function Low(w: Word): int { w % 0x100 }

  lemma PackParts(high: int, low: int)
    requires 0 <= high < 0x100 && 0 <= low < 0x100
    ensures High(Pack(high, low)) == high && Low(Pack(high, low)) == low
  {
  }

  lemma PartsPack(w: Word)
    ensures 0 <= High(w) < 0x100 && 0 <= Low(w) < 0x100 && Pack(High(w), Low(w)) == w
  {
  }

  /** The three words of a date and time. */
  function Fields(v: DateTime): seq<Word>
    requires InRange(v)
  {
    [Pack(v.year - 2000, v.month), Pack(v.day, v.hour), Pack(v.minute, v.second)]
  }

  function Encode(v: DateTime): (r: Result<seq<Word>>)
  {
    if !Validate(v) then Err else Ok(Fields(v))
  }

  function Year(raw: int): int {
    if raw >= 100 then 1900 + raw else 2000 + raw
  }

  function Unpacked(a: Word, b: Word, c: Word): DateTime {
    DateTime(Year(High(a)), Low(a), High(b), Low(b), High(c), Low(c))
  }

  function Decode(words: seq<Word>): (r: Result<Reading>)
  {
    if |words| < 3 then Err
    else
      var v := Unpacked(words[0], words[1], words[2]);
      Ok(Reading(v, Validate(v)))
  }

  /** Validation accepts exactly the existing dates and times of this century. */
  lemma ValidateIsGregorian(v: DateTime)
    ensures Validate(v) <==> Gregorian(v)
  {
    if InRange(v) {
      NormalizeKeepsDay(v.year, v.month, v.day);
      LeapInCentury(v.year);
    }
  }

  lemma LeapInCentury(year: int)
    requires 2000 <= year <= 2099
    ensures Leap(year) <==> year % 4 == 0
  {
    assert year % 100 == 0 <==> year == 2000;
  }

  /** Where each field is: the year since 2000, or from 100 on since 1900, in the high byte of the first word, the month
      in its low byte, then day and hour, then minute and second. */
  lemma BytePlaces(words: seq<Word>, v: DateTime)
    ensures Decode(words).Err? <==> |words| < 3
    ensures |words| >= 3 ==>
              var year := words[0] / 256;
              Decode(words).value.value == DateTime(if year < 100 then 2000 + year else 1900 + year, words[0] % 256,
                                                    words[1] / 256, words[1] % 256, words[2] / 256, words[2] % 256)
    ensures |words| >= 3 ==> (Decode(words).value.valid <==> Gregorian(Decode(words).value.value))
    ensures Encode(v).Ok? ==>
              Encode(v).value == [256 * (v.year - 2000) + v.month, 256 * v.day + v.hour, 256 * v.minute + v.second]
  {
    if |words| >= 3 {
      ValidateIsGregorian(Decode(words).value.value);
    }
  }

  /** What is written reads back as the same fields, marked valid; everything else is refused. */
  lemma WriteThenRead(v: DateTime)
    ensures Encode(v).Ok? <==> Gregorian(v)
    ensures Encode(v).Ok? ==> Decode(Encode(v).value) == Ok(Reading(v, true))
  {
    ValidateIsGregorian(v);
    if Validate(v) {
      UnpackFields(v);
    }
  }

  lemma UnpackFields(v: DateTime)
    requires InRange(v)
    ensures var words := Fields(v);
            |words| == 3 && Unpacked(words[0], words[1], words[2]) == v
  {
    PackParts(v.year - 2000, v.month);
    PackParts(v.day, v.hour);
    PackParts(v.minute, v.second);
  }

  /** The two-digit form of a raw clock: a year counted from 1900 becomes the same year counted from 2000. */
  function Canonical(words: seq<Word>): seq<Word>
    requires |words| == 3
  {
    if High(words[0]) < 100 then words else [words[0] - 100 * 0x100, words[1], words[2]]
  }

  lemma CanonicalYear(w: Word)
    requires High(w) >= 100
    ensures w >= 100 * 0x100 && High(w - 100 * 0x100) == High(w) - 100 && Low(w - 100 * 0x100) == Low(w)
  {
    PartsPack(w);
    PackParts(High(w) - 100, Low(w));
  }

  lemma FirstWord(w: Word)
    requires 2000 <= Year(High(w)) <= 2099
    ensures 0 <= Low(w) < 0x100
    ensures Pack(Year(High(w)) - 2000, Low(w)) == if High(w) < 100 then w else w - 100 * 0x100
  {
    PartsPack(w);
    if High(w) >= 100 {
      CanonicalYear(w);
      PartsPack(w - 100 * 0x100);
    }
  }

  lemma PackUnpacked(words: seq<Word>)
    requires |words| == 3 && InRange(Unpacked(words[0], words[1], words[2]))
    ensures Fields(Unpacked(words[0], words[1], words[2])) == Canonical(words)
  {
    var v := Unpacked(words[0], words[1], words[2]);
    assert Fields(v)[0] == Canonical(words)[0] by {
      FirstWord(words[0]);
    }
    assert Fields(v)[1] == words[1] by {
      PartsPack(words[1]);
    }
    assert Fields(v)[2] == words[2] by {
      PartsPack(words[2]);
    }
  }

  lemma UnpackCanonical(words: seq<Word>)
    requires |words| == 3 && InRange(Unpacked(words[0], words[1], words[2]))
    ensures var c := Canonical(words);
            && |c| == 3 && High(c[0]) < 100
            && Unpacked(c[0], c[1], c[2]) == Unpacked(words[0], words[1], words[2])
  {
    if High(words[0]) >= 100 {
      CanonicalYear(words[0]);
    }
  }

  /** Writing back what was read changes nothing, except that a year counted from 1900 becomes two-digit, once. */
  lemma ReadThenWrite(words: seq<Word>)
    requires |words| == 3
    ensures Decode(words).Ok?
    ensures Decode(words).value.valid <==> Encode(Decode(words).value.value).Ok?
    ensures Decode(words).value.valid ==> Encode(Decode(words).value.value) == Ok(Canonical(words))
    ensures Decode(words).value.valid && High(words[0]) < 100 ==> Encode(Decode(words).value.value) == Ok(words)
    ensures Decode(words).value.valid ==>
              && Decode(Canonical(words)) == Decode(words)
              && Canonical(Canonical(words)) == Canonical(words)
  {
    if Decode(words).value.valid {
      PackUnpacked(words);
      UnpackCanonical(words);
    }
  }
}
