/** Dates of the Gregorian calendar, counted from 1970-01-01. */
module Gregorian {
  predicate IsLeap(year: nat) {
    year % 4 == 0 && (year % 100 != 0 || year % 400 == 0)
  }

  function MonthLength(year: nat, month: nat): nat {
    if month == 2 then (if IsLeap(year) then 29 else 28)
    else if month == 4 || month == 6 || month == 9 || month == 11 then 30
    else 31
  }

  /** The days of a year before a month. */
  function DaysBefore(year: nat, month: nat): nat {
    if month <= 1 then 0 else DaysBefore(year, month - 1) + MonthLength(year, month - 1)
  }

  /** The days from 1970 on before a year. */
  function DaysUntil(year: nat): nat {
    if year <= 1970 then 0 else DaysUntil(year - 1) + DaysBefore(year - 1, 13)
  }

  /** The date that lies the given number of days behind 1970-01-01. */
  predicate IsDate(days: int, year: nat, month: nat, day: nat) {
    && 1 <= month <= 12 && 1 <= day <= MonthLength(year, month)
    && days == DaysUntil(year) + DaysBefore(year, month) + day - 1
  }

  lemma DaysBeforeMonth(year: nat, month: nat)
    requires 1 <= month <= 13
    ensures DaysBefore(year, month) ==
      [0, 31, 59, 90, 120, 151, 181, 212, 243, 273, 304, 334, 365][month - 1]
      + if month > 2 && IsLeap(year) then 1 else 0
  {
    hide IsLeap;
    if month > 1 {
      DaysBeforeMonth(year, month - 1);
    }
  }

  lemma LeapYears(year: nat)
    requires 1970 <= year < 2200
    ensures IsLeap(year) <==> year % 4 == 0 && year != 2100
  {}

  lemma {:induction false} DaysUntilYear(year: nat)
    requires 1970 <= year < 2200
    ensures DaysUntil(year) == 365 * (year - 1970) + (year - 1969) / 4 - if year > 2100 then 1 else 0
  {
    hide IsLeap;
    if year > 1970 {
      DaysUntilYear(year - 1);
      DaysBeforeMonth(year - 1, 13);
      LeapYears(year - 1);
      hide DaysBefore;
    }
  }
}

/**
 MS-DOS timestamps: zipfileMtime and zipfileMtimeToDos.  The decimal constants
 of the source are read as exact fractions and a cast to int as a floor.
 */
module Calendar {
  import opened Gregorian

  const TWO32 := 0x1_0000_0000

  /** The date and time words, as `day + (mon << 5) + (years << 9)` and `sec/2 + (min << 5) + (hr << 11)` fill them. */
  datatype Dos = Dos(mDate: nat, mTime: nat)

  /** (int)(365.25 * n) and (int)(30.6001 * n) */
  function Years(n: int): int {
    1461 * n / 4
  }

  function Months(n: int): int {
    306001 * n / 10000
  }

  /** Noon of a Julian day, moved to the time of day and counted from 1970, as an unsigned 32-bit number. */
  function Seconds(jd: int, hr: nat, min: nat, sec: nat): (t: nat)
    ensures t < TWO32
  {
    (86400 * jd + (hr - 12) * 3600 + min * 60 + sec - 24405875 * 8640) % TWO32
  }

  function DateWord(day: int, mon: int, years: int): (w: nat)
    ensures w < 65536
  {
    (day + mon * 32 + years * 512) % 65536
  }

  function TimeWord(half: nat, min: nat, hr: nat): (w: nat)
    ensures w < 65536
  {
    (half + min * 32 + hr * 2048) % 65536
  }

  /** zipfileMtime */
  function Mtime(d: Dos): (t: nat)
    ensures t < TWO32
  {
    var y := 1980 + d.mDate / 512 % 128;
    var m := d.mDate / 32 % 16;
    var day := d.mDate % 32;
    var sec := d.mTime % 32 * 2;
    var min := d.mTime / 32 % 64;
    var hr := d.mTime / 2048 % 32;
    var y' := if m < 3 then y - 1 else y;
    var m' := if m < 3 then m + 12 else m;
    Seconds(Years(y' + 4716) + Months(m' + 1) + day - 13 - 1524, hr, min, sec)
  }

  /** The steps from a Julian day to a civil date; c, d and e carry over to the way back. */
  datatype Civil = Civil(c: int, e: int, day: int) {
    function Month(): int {
      if e < 14 then e - 1 else e - 13
    }

    function Year(): int {
      if Month() > 2 then c - 4716 else c - 4715
    }
  }

  function ToCivil(jd: int): Civil {
    var a := (4 * jd - 7468865) / 146097;
    var b := jd + 1 + a - a / 4 + 1524;
    var c := (20 * b - 2442) / 7305;
    var d := 36525 * (c % 32768) / 100;
    var e := 10000 * (b - d) / 306001;
    Civil(c, e, b - d - Months(e))
  }

  /** zipfileMtimeToDos */
  function MtimeToDos(t: nat): Dos {
    var v := ToCivil(2440588 + t / 86400);
    var hr := t % 86400 / 3600;
    var min := t % 3600 / 60;
    var sec := t % 60;
    if v.Year() >= 1980 then
      Dos(DateWord(v.day, v.Month(), v.Year() - 1980), TimeWord(sec / 2, min, hr))
    else Dos(0, 0)
  }

  const FIRST := 315532800   // 1980-01-01
  const LIMIT := 4107542400  // 2100-03-01

  /** The number of days that the century rule adds, for every day a 32-bit time can name. */
  lemma CenturyRule(jd: int)
    requires 2440588 <= jd <= 2440588 + 49710
    ensures var a := (4 * jd - 7468865) / 146097; 1 + a - a / 4 == if jd < 2488129 then 13 else 14
  {}

  lemma YearRanges(b: int, c: int)
    requires 2442125 <= b <= 2442126 + 49710 && c == (20 * b - 2442) / 7305
    ensures 6684 <= c <= 6822 && 36525 * (c % 32768) / 100 == Years(c) && 123 <= b - Years(c) <= 488
  {
    assert c % 32768 == c;
  }

  lemma MonthRanges(days: int, e: int)
    requires 123 <= days <= 488 && e == 10000 * days / 306001
    ensures 4 <= e <= 15 && 0 <= days - Months(e) < 32
  {}

  lemma CivilIs(jd: int, b: int, c: int, e: int)
    requires 2440588 <= jd <= 2440588 + 49710 && b == (if jd < 2488129 then jd + 1537 else jd + 1538)
    requires c == (20 * b - 2442) / 7305 && e == 10000 * (b - Years(c)) / 306001
    ensures ToCivil(jd) == Civil(c, e, b - Years(c) - Months(e))
  {
    hide Years, Months;
    CenturyRule(jd);
    YearRanges(b, c);
  }

  lemma From1980(b: int, c: int, e: int)
    requires 2442125 <= b <= 2442126 + 49710
    requires c == (20 * b - 2442) / 7305 && e == 10000 * (b - Years(c)) / 306001
    ensures Civil(c, e, b - Years(c) - Months(e)).Year() >= 1980 <==> b >= 2444240 + 1537
  {
    YearRanges(b, c);
  }

  /** Within a year c, which starts in March, e counts the months from 4 on. */
  lemma CivilRanges(jd: int)
    requires 2440588 <= jd <= 2440588 + 49710
    ensures var v := ToCivil(jd); 6684 <= v.c <= 6822 && 4 <= v.e <= 15 && 0 <= v.day < 32
    ensures var v := ToCivil(jd); Years(v.c) + Months(v.e) + v.day - 1537 == if jd < 2488129 then jd else jd + 1
    ensures ToCivil(jd).Year() >= 1980 <==> jd >= 2444240
  {
    hide Years, Months, ToCivil;
    var b := if jd < 2488129 then jd + 1537 else jd + 1538;
    var c := (20 * b - 2442) / 7305;
    var e := 10000 * (b - Years(c)) / 306001;
    YearRanges(b, c);
    MonthRanges(b - Years(c), e);
    CivilIs(jd, b, c, e);
    From1980(b, c, e);
  }

  /** Month e begins behind this many of the days that are counted within c. */
  lemma MonthTable(e: int)
    requires 4 <= e <= 15
    ensures Months(e) == [122, 153, 183, 214, 244, 275, 306, 336, 367, 397, 428, 459][e - 4]
  {}

  /** The last day of a year that starts in March. */
  lemma LastOfYear(b: int, c: int)
    requires 2442125 <= b <= 2442126 + 49710 && c == (20 * b - 2442) / 7305
    ensures b - Years(c) <= if (c + 1) % 4 == 0 then 488 else 487
    ensures c == 6815 && b - Years(c) == 488 ==> b == 2489666
  {}

  lemma DayInMonth(n: int, e: int, year: nat, month: nat)
    requires 123 <= n <= 488 && e == 10000 * n / 306001
    requires month == (if e < 14 then e - 1 else e - 13)
    requires n == 488 ==> IsLeap(year)
    ensures 4 <= e <= 15 && 1 <= n - Months(e) <= MonthLength(year, month)
  {
    hide IsLeap;
    MonthRanges(n, e);
    MonthTable(e);
    hide Months;
    MonthStarts(n, e);
  }

  lemma MonthStarts(n: int, e: int)
    requires 123 <= n <= 488 && e == 10000 * n / 306001 && 4 <= e <= 15
    ensures [122, 153, 183, 214, 244, 275, 306, 336, 367, 397, 428, 459][e - 4] < n
    ensures n <= [153, 183, 214, 244, 275, 306, 336, 367, 397, 428, 459, 488][e - 4]
  {}

  lemma YearStart(c: int, e: int, year: nat)
    requires 6684 <= c <= 6822 && 4 <= e <= 15 && year == (if e < 14 then c - 4716 else c - 4715)
    ensures Years(c) == 365 * c + c / 4
    ensures year % 4 == (if e < 14 then c % 4 else (c + 1) % 4)
    ensures year / 4 == (if e < 14 then c / 4 else (c + 1) / 4) - 1179
  {}

  /** The date that is computed is the one of the Gregorian calendar. */
  lemma CivilIsDate(jd: int)
    requires 2440588 <= jd <= 2440588 + 49710
    ensures var v := ToCivil(jd);
      v.Year() >= 1970 && v.Month() >= 1 && v.day >= 1 && IsDate(jd - 2440588, v.Year(), v.Month(), v.day)
  {
    hide Years, Months, ToCivil, IsLeap, MonthLength, DaysUntil, DaysBefore;
    var b := if jd < 2488129 then jd + 1537 else jd + 1538;
    var c := (20 * b - 2442) / 7305;
    var n := b - Years(c);
    var e := 10000 * n / 306001;
    YearRanges(b, c);
    MonthRanges(n, e);
    CivilIs(jd, b, c, e);
    LastOfYear(b, c);
    var v := ToCivil(jd);
    CountedDays(b, c, e, v.Year(), v.Month());
    DayInMonth(n, e, v.Year(), v.Month());
  }

  lemma CountedDays(b: int, c: int, e: int, year: int, month: int)
    requires 2442125 <= b <= 2442126 + 49710 && b != 2489666
    requires c == (20 * b - 2442) / 7305 && e == 10000 * (b - Years(c)) / 306001
    requires 6684 <= c <= 6822 && 4 <= e <= 15 && month == (if e < 14 then e - 1 else e - 13)
    requires year == (if month > 2 then c - 4716 else c - 4715)
    requires b - Years(c) <= if (c + 1) % 4 == 0 then 488 else 487
    requires c == 6815 && b - Years(c) == 488 ==> b == 2489666
    ensures 1970 <= year < 2200 && 1 <= month <= 12
    ensures b - Years(c) == 488 ==> IsLeap(year)
    ensures DaysUntil(year) + DaysBefore(year, month) ==
      Years(c) + Months(e) - 2442124 - if b > 2489666 then 1 else 0
  {
    hide IsLeap, DaysUntil, DaysBefore, MonthLength;
    From1970(b, c, e);
    Behind2100(b, c);
    hide Years, Months;
    DaysOf(c, e, year, month);
    if b - Years(c) == 488 {
      YearStart(c, e, year);
      LeapYears(year);
      InFebruary(b - Years(c), e);
    }
  }

  lemma InFebruary(n: int, e: int)
    requires n == 488 && e == 10000 * n / 306001
    ensures e == 15
  {}

  lemma DaysOf(c: int, e: int, year: nat, month: nat)
    requires 6684 <= c <= 6822 && 4 <= e <= 15 && month == (if e < 14 then e - 1 else e - 13)
    requires year == (if e < 14 then c - 4716 else c - 4715) && 1970 <= year
    ensures DaysUntil(year) + DaysBefore(year, month) ==
      Years(c) + Months(e) - 2442124 - if year > 2100 || (year == 2100 && month > 2) then 1 else 0
  {
    hide IsLeap, DaysUntil, DaysBefore, MonthLength;
    YearStart(c, e, year);
    MonthTable(e);
    hide Years, Months;
    DaysUntilYear(year);
    DaysBeforeMonth(year, month);
    LeapYears(year);
    QuarterBefore(year);
  }

  lemma QuarterBefore(year: nat)
    requires year >= 1970
    ensures (year - 1969) / 4 == year / 4 - 492 - if year % 4 == 0 then 1 else 0
  {}

  /** February of 2100 has no day 29, where the count of the days is not moved on, but skips one. */
  lemma Behind2100(b: int, c: int)
    requires 2442125 <= b <= 2442126 + 49710 && b != 2489666 && c == (20 * b - 2442) / 7305
    ensures b > 2489666 <==> c >= 6816
  {
    YearRanges(b, c);
  }

  lemma From1970(b: int, c: int, e: int)
    requires 2442125 <= b <= 2442126 + 49710
    requires c == (20 * b - 2442) / 7305 && e == 10000 * (b - Years(c)) / 306001
    ensures (if e < 14 then c - 4716 else c - 4715) >= 1970
  {
    YearRanges(b, c);
  }

  lemma LowField(low: nat, above: nat)
    requires low < 32
    ensures (low + 32 * above) % 32 == low && (low + 32 * above) / 32 == above
  {}

  lemma MonthField(mon: nat, years: nat)
    requires mon < 16
    ensures (mon + 16 * years) % 16 == mon && (mon + 16 * years) / 16 == years
  {}

  lemma MinuteField(min: nat, hr: nat)
    requires min < 64
    ensures (min + 64 * hr) % 64 == min && (min + 64 * hr) / 64 == hr
  {}

  lemma DateShifts(w: nat)
    ensures w / 512 == w / 32 / 16
  {}

  lemma TimeShifts(w: nat)
    ensures w / 2048 == w / 32 / 64
  {}

  lemma DateSum(day: nat, mon: nat, years: nat)
    requires day < 32 && mon < 16 && years < 128
    ensures DateWord(day, mon, years) == day + 32 * (mon + 16 * years)
  {}

  lemma TimeSum(half: nat, min: nat, hr: nat)
    requires half < 32 && min < 64 && hr < 32
    ensures TimeWord(half, min, hr) == half + 32 * (min + 64 * hr)
  {}

  /** The fields of a word never overlap. */
  lemma DateFields(day: nat, mon: nat, years: nat)
    requires day < 32 && mon < 16 && years < 128
    ensures var w := DateWord(day, mon, years); w % 32 == day && w / 32 % 16 == mon && w / 512 % 128 == years
  {
    var above := mon + 16 * years;
    DateSum(day, mon, years);
    hide DateWord;
    LowField(day, above);
    MonthField(mon, years);
    DateShifts(DateWord(day, mon, years));
  }

  lemma TimeFields(half: nat, min: nat, hr: nat)
    requires half < 32 && min < 64 && hr < 32
    ensures var w := TimeWord(half, min, hr); w % 32 == half && w / 32 % 64 == min && w / 2048 % 32 == hr
  {
    var above := min + 64 * hr;
    TimeSum(half, min, hr);
    hide TimeWord;
    LowField(half, above);
    MinuteField(min, hr);
    TimeShifts(TimeWord(half, min, hr));
  }

  lemma WholeHours(k: nat, r: nat)
    ensures (3600 * k + r) % 3600 == r % 3600
  {}

  lemma WholeMinutes(k: nat, r: nat)
    ensures (60 * k + r) % 60 == r % 60
  {}

  lemma WholePairs(k: nat, r: nat)
    ensures (2 * k + r) % 2 == r % 2
  {}

  lemma Halved(sec: nat)
    ensures sec / 2 * 2 == sec - sec % 2
  {}

  lemma TimeOfDay(t: nat)
    ensures t % 86400 / 3600 * 3600 + t % 3600 / 60 * 60 + t % 60 / 2 * 2 == t % 86400 - t % 2
    ensures t % 86400 / 3600 < 24 && t % 3600 / 60 < 60
  {
    var day, r := t / 86400, t % 86400;
    var hr, s := r / 3600, r % 3600;
    var min, sec := s / 60, s % 60;
    WholeHours(24 * day, r);
    WholeMinutes(1440 * day + 60 * hr, s);
    WholePairs(43200 * day + 1800 * hr + 30 * min, sec);
    Halved(sec);
  }

  /** What zipfileMtime computes from words whose fields are in range. */
  lemma MtimeOfFields(c: int, e: int, day: nat, mon: nat, years: nat, half: nat, min: nat, hr: nat)
    requires day < 32 && mon < 16 && years < 128 && half < 32 && min < 64 && hr < 32
    requires e == (if mon < 3 then mon + 13 else mon + 1) && c == 1980 + years + (if mon < 3 then 4715 else 4716)
    ensures Mtime(Dos(DateWord(day, mon, years), TimeWord(half, min, hr))) ==
      Seconds(Years(c) + Months(e) + day - 1537, hr, min, half * 2)
  {
    DateFields(day, mon, years);
    TimeFields(half, min, hr);
    hide Years, Months, Seconds, DateWord, TimeWord;
  }

  lemma DosOf(t: nat)
    requires t < TWO32
    ensures var v := ToCivil(2440588 + t / 86400);
      MtimeToDos(t) == if t < FIRST then Dos(0, 0) else
        Dos(DateWord(v.day, v.Month(), v.Year() - 1980), TimeWord(t % 60 / 2, t % 3600 / 60, t % 86400 / 3600))
  {
    CivilRanges(2440588 + t / 86400);
    hide ToCivil, DateWord, TimeWord, Years, Months;
  }

  /** The words name the Gregorian date and, to two seconds, the time of day. */
  predicate Names(d: Dos, t: nat) {
    && IsDate(t / 86400, 1980 + d.mDate / 512, d.mDate / 32 % 16, d.mDate % 32)
    && d.mTime / 2048 == t % 86400 / 3600 && d.mTime / 32 % 64 == t % 3600 / 60 && d.mTime % 32 == t % 60 / 2
  }

  lemma DosNames(t: nat)
    requires FIRST <= t < TWO32
    ensures Names(MtimeToDos(t), t)
  {
    hide ToCivil, Years, Months, MtimeToDos, DateWord, TimeWord, IsDate;
    var jd := 2440588 + t / 86400;
    var v := ToCivil(jd);
    CivilRanges(jd);
    CivilIsDate(jd);
    DosOf(t);
    TimeOfDay(t);
    DateFields(v.day, v.Month(), v.Year() - 1980);
    TimeFields(t % 60 / 2, t % 3600 / 60, t % 86400 / 3600);
  }

  lemma DosOfEarly(t: nat)
    requires t < FIRST
    ensures MtimeToDos(t) == Dos(0, 0)
  {
    hide MtimeToDos;
    DosOf(t);
  }

  /** `late` is the day by which the century rule is off. */
  lemma SecondsOf(t: nat, late: nat)
    ensures Seconds(2440588 + t / 86400 + late, t % 86400 / 3600, t % 3600 / 60, t % 60 / 2 * 2)
      == (t - t % 2 + 86400 * late) % TWO32
  {
    TimeOfDay(t);
    assert 86400 * (t / 86400) + t % 86400 == t;
  }

  lemma DayOfLimit(t: nat)
    ensures 2440588 + t / 86400 < 2488129 <==> t < LIMIT
    ensures 2440588 + t / 86400 < 2444240 <==> t < FIRST
  {}

  /** From 1980 on, the trip to MS-DOS and back keeps the time of day and adds a day after February 2100. */
  lemma RoundTripFrom1980(t: nat)
    requires FIRST <= t < TWO32
    ensures Mtime(MtimeToDos(t)) == (if t < LIMIT then t - t % 2 else t - t % 2 + 86400) % TWO32
  {
    hide ToCivil, Years, Months, Mtime, MtimeToDos, DateWord, TimeWord, Seconds;
    var jd := 2440588 + t / 86400;
    var v := ToCivil(jd);
    CivilRanges(jd);
    DosOf(t);
    TimeOfDay(t);
    MtimeOfFields(v.c, v.e, v.day, v.Month(), v.Year() - 1980, t % 60 / 2, t % 3600 / 60, t % 86400 / 3600);
    DayOfLimit(t);
    SecondsOf(t, if t < LIMIT then 0 else 1);
  }

  lemma EarlyDay(c: int, e: int)
    requires c == 6695 && e == 13
    ensures Years(c) + Months(e) - 1537 == 2444208
  {}

  lemma EarlySecond(jd: int, zero: nat)
    requires jd == 2444208 && zero == 0
    ensures Seconds(jd, zero, zero, zero) == 312768000
  {}

  lemma EarlyWords(zero: nat)
    requires zero == 0
    ensures DateWord(zero, zero, zero) == 0 && TimeWord(zero, zero, zero) == 0
  {}

  lemma ZeroWords()
    ensures Mtime(Dos(0, 0)) == 312768000
  {
    hide Years, Months, Seconds, Mtime, DateWord, TimeWord;
    EarlyDay(6695, 13);
    EarlySecond(2444208, 0);
    EarlyWords(0);
    MtimeOfFields(6695, 13, 0, 0, 0, 0, 0, 0);
  }

  /** Before 1980 both words are zero, which reads back as 1979-11-30. */
  lemma RoundTripBefore1980(t: nat)
    requires t < FIRST
    ensures Mtime(MtimeToDos(t)) == 312768000
  {
    hide Mtime, MtimeToDos;
    DosOf(t);
    ZeroWords();
  }

  /** Exactly when a 32-bit time survives the trip, to the two seconds that the format resolves. */
  lemma RoundTrip(t: nat)
    requires t < TWO32
    ensures Mtime(MtimeToDos(t)) == t - t % 2 <==> FIRST <= t < LIMIT || t == 312768000 || t == 312768001
  {
    hide Mtime, MtimeToDos;
    if t < FIRST {
      RoundTripBefore1980(t);
    } else {
      RoundTripFrom1980(t);
    }
  }

  /** The condition asserted at the end of zipfileMtimeToDos. */
  predicate AssertedAfterMtimeToDos(t: nat) {
    var back := Mtime(MtimeToDos(t));
    t < 315507600 || t == back || (t % 2 == 1 && t - 1 == back)
  }

  /** It fails in the last seven hours of 1979 and from March 2100 on, and nowhere else. */
  lemma AssertionHoldsExactlyWhen(t: nat)
    requires t < TWO32
    ensures AssertedAfterMtimeToDos(t) <==> t < 315507600 || FIRST <= t < LIMIT
  {
    hide Mtime, MtimeToDos;
    RoundTrip(t);
    if t < FIRST {
      RoundTripBefore1980(t);
    } else {
      RoundTripFrom1980(t);
    }
  }

  lemma AssertionFailsAt()
    ensures !AssertedAfterMtimeToDos(315507600) && !AssertedAfterMtimeToDos(LIMIT)
  {
    AssertionHoldsExactlyWhen(315507600);
    AssertionHoldsExactlyWhen(LIMIT);
  }
}
