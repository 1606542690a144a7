/** The day count of a calendar date, and the timestamps read with it. */
module CivilDates {
  import opened Options
  import opened Basics
  import opened Texts
  import Characters

  datatype Date = Date(year: int, month: int, day: int)

  /** Division as the source language rounds it: toward zero. */
  function TruncatedDiv(a: int, b: int): int
    requires b > 0
  {
    if a >= 0 then a / b else -(-a / b)
  }

  function DaysFromCivil(year: int, month: int, day: int): int {
    var y := year - (if month <= 2 then 1 else 0);
    var era := TruncatedDiv(if y >= 0 then y else y - 399, 400);
    var yearOfEra := y - era * 400;
    var dayOfYear := TruncatedDiv(153 * (month + (if month > 2 then -3 else 9)) + 2, 5) + day - 1;
    var dayOfEra := yearOfEra * 365 + TruncatedDiv(yearOfEra, 4) - TruncatedDiv(yearOfEra, 100) + dayOfYear;
    era * 146_097 + dayOfEra - 719_468
  }

  // ------------------------------------------------------- the proleptic Gregorian calendar

  predicate Leap(year: int) {
    year % 4 == 0 && (year % 100 != 0 || year % 400 == 0)
  }

  function DaysInMonth(year: int, month: int): int {
    if month == 2 then (if Leap(year) then 29 else 28)
    else if month in {4, 6, 9, 11} then 30
    else 31
  }

  predicate Real(date: Date) {
    1 <= date.month <= 12 && 1 <= date.day <= DaysInMonth(date.year, date.month)
  }

  function Tomorrow(date: Date): Date {
    if date.day < DaysInMonth(date.year, date.month) then date.(day := date.day + 1)
    else if date.month < 12 then Date(date.year, date.month + 1, 1)
    else Date(date.year + 1, 1, 1)
  }

  function Yesterday(date: Date): Date {
    if date.day > 1 then date.(day := date.day - 1)
    else if date.month > 1 then Date(date.year, date.month - 1, DaysInMonth(date.year, date.month - 1))
    else Date(date.year - 1, 12, 31)
  }

  predicate Earlier(a: Date, b: Date) {
    || a.year < b.year
    || (a.year == b.year && a.month < b.month)
    || (a.year == b.year && a.month == b.month && a.day < b.day)
  }

  function Days(date: Date): int {
    DaysFromCivil(date.year, date.month, date.day)
  }

  // ------------------------------------------------------- the day count is the calendar's

  /** Days in the years before `y`, counting years that begin in March. */
  function YearDays(y: int): int {
    365 * y + y / 4 - y / 100 + y / 400
  }

  lemma YearIsLeapOrNot(y: int)
    ensures YearDays(y) - YearDays(y - 1) == if Leap(y) then 366 else 365
  {
    Multiples4(y);
    Multiples100(y);
    Multiples400(y);
  }

  lemma Multiples4(y: int)
    ensures y / 4 - (y - 1) / 4 == if y % 4 == 0 then 1 else 0
  {
  }

  lemma Multiples100(y: int)
    ensures y / 100 - (y - 1) / 100 == if y % 100 == 0 then 1 else 0
    ensures y % 100 == 0 ==> y % 4 == 0
  {
    if y % 100 == 0 {
      assert y == 4 * (25 * (y / 100));
    }
  }

  lemma Multiples400(y: int)
    ensures y / 400 - (y - 1) / 400 == if y % 400 == 0 then 1 else 0
    ensures y % 400 == 0 ==> y % 100 == 0
  {
    if y % 400 == 0 {
      assert y == 100 * (4 * (y / 400));
    }
  }

  /** Eras only keep the numbers small: the count is the usual sum over years. */
  lemma EraIsFloor(y: int)
    ensures var era := TruncatedDiv(if y >= 0 then y else y - 399, 400);
            var yearOfEra := y - era * 400;
            && era == y / 400 && 0 <= yearOfEra < 400
            && era * 146_097 + yearOfEra * 365 + yearOfEra / 4 - yearOfEra / 100 == YearDays(y)
  {
    var era := y / 400;
    var yearOfEra := y % 400;
    assert y == era * 400 + yearOfEra;
    assert y / 4 == era * 100 + yearOfEra / 4;
    assert y / 100 == era * 4 + yearOfEra / 100;
  }

  function ShiftedYear(date: Date): int {
    if date.month <= 2 then date.year - 1 else date.year
  }

  function ShiftedMonth(date: Date): int {
    if date.month <= 2 then date.month + 9 else date.month - 3
  }

  /** Days of a March-based year before its month `m`. */
  function MonthStart(m: int): int {
    (153 * m + 2) / 5
  }

  /** The day count in closed form, for the months of a calendar. */
  lemma DaysInClosedForm(date: Date)
    requires 1 <= date.month <= 12
    ensures Days(date) == YearDays(ShiftedYear(date)) + MonthStart(ShiftedMonth(date)) + date.day - 719_469
  {
    EraIsFloor(ShiftedYear(date));
  }

  lemma MonthHasItsDays(year: int, month: int)
    requires 1 <= month <= 12
    ensures var next := if month < 12 then Date(year, month + 1, 1) else Date(year + 1, 1, 1);
            Days(next) == Days(Date(year, month, 1)) + DaysInMonth(year, month)
  {
    var next := if month < 12 then Date(year, month + 1, 1) else Date(year + 1, 1, 1);
    hide Days, YearDays;
    DaysInClosedForm(Date(year, month, 1));
    DaysInClosedForm(next);
    hide MonthStart;
    if month == 2 {
      YearIsLeapOrNot(year);
      MonthLengthFebruary();
    } else {
      MonthLengths(ShiftedMonth(Date(year, month, 1)));
    }
  }

  lemma MonthLengthFebruary()
    ensures MonthStart(11) == 337 && MonthStart(0) == 0
  {
  }

  lemma MonthLengths(m: int)
    requires 0 <= m < 11
    ensures MonthStart(m + 1) - MonthStart(m) == if m in {1, 3, 6, 8} then 30 else 31
  {
  }

  lemma EpochIsDayZero()
    ensures Days(Date(1970, 1, 1)) == 0
  {
  }

  /** Every calendar day counts one more than the day before it, in every year, before the year
      zero too. */
  lemma TomorrowIsOneMore(date: Date)
    requires Real(date)
    ensures Real(Tomorrow(date)) && Days(Tomorrow(date)) == Days(date) + 1
  {
    hide Days, YearDays;
    DaysInClosedForm(date);
    DaysInClosedForm(date.(day := date.day + 1));
    DaysInClosedForm(date.(day := 1));
    MonthHasItsDays(date.year, date.month);
  }

  lemma YesterdayAndTomorrow(date: Date)
    requires Real(date)
    ensures Real(Yesterday(date)) && Tomorrow(Yesterday(date)) == date
    ensures Yesterday(Tomorrow(date)) == date
  {
  }

  /** Later dates have greater counts. */
  lemma {:induction false} CountFollowsCalendar(a: Date, b: Date)
    requires Real(a) && Real(b) && Earlier(a, b)
    ensures Days(a) < Days(b)
    decreases 372 * (b.year - a.year) + 31 * (b.month - a.month) + b.day - a.day
  {
    TomorrowIsOneMore(a);
    if Tomorrow(a) != b {
      CountFollowsCalendar(Tomorrow(a), b);
    }
  }

  lemma {:induction false} DateOfDay(n: int) returns (date: Date)
    ensures Real(date) && Days(date) == n
    decreases if n < 0 then -n else n
  {
    if n == 0 {
      date := Date(1970, 1, 1);
    } else if n > 0 {
      var before := DateOfDay(n - 1);
      date := Tomorrow(before);
      TomorrowIsOneMore(before);
    } else {
      var after := DateOfDay(n + 1);
      date := Yesterday(after);
      YesterdayAndTomorrow(after);
      TomorrowIsOneMore(date);
    }
  }

  /** Day numbers and calendar dates correspond one to one. */
  lemma EveryDayIsOneDate(n: int)
    ensures exists date :: Real(date) && Days(date) == n
    ensures forall a, b :: Real(a) && Real(b) && Days(a) == n && Days(b) == n ==> a == b
  {
    var date := DateOfDay(n);
    assert Real(date) && Days(date) == n;
    forall a, b | Real(a) && Real(b) && Days(a) == n && Days(b) == n ensures a == b {
      if Earlier(a, b) {
        CountFollowsCalendar(a, b);
      } else if Earlier(b, a) {
        CountFollowsCalendar(b, a);
      }
    }
  }

  // ------------------------------------------------------- timestamps

  /** Bytes of the White_Space character that `s` begins with; 0 if it begins with none. */
  function BlankAt(s: Utf8): (n: nat)
    ensures n <= |s|
    ensures n > 0 ==> forall i :: 0 <= i < n ==> !IsDigit(s[i])
  {
    var at := (i: int) => if 0 <= i < |s| then s[i] as int else 0;
    if s == "" then 0
    else if 0x9 <= at(0) <= 0xD || at(0) == 0x20 then 1
    else if at(0) == 0xC2 && at(1) in {0x85, 0xA0} then 2
    else if || (at(0) == 0xE1 && at(1) == 0x9A && at(2) == 0x80)
            || (at(0) == 0xE2 && at(1) == 0x80 && (0x80 <= at(2) <= 0x8A || at(2) in {0xA8, 0xA9, 0xAF}))
            || (at(0) == 0xE2 && at(1) == 0x81 && at(2) == 0x9F)
            || (at(0) == 0xE3 && at(1) == 0x80 && at(2) == 0x80)
    then 3
    else 0
  }

  /** They are the bytes of exactly the characters that are white space. */
  lemma BlankIsWhitespace(c: char, rest: Utf8)
    ensures BlankAt(EncodedCharacter(c) + rest)
            == if Characters.IsWhitespace(c) then |EncodedCharacter(c)| else 0
  {
    if c as int < 0x800 {
      ShortBlankIsWhitespace(c, rest);
    } else {
      LongBlankIsWhitespace(c, rest);
    }
  }

  lemma ShortBlankIsWhitespace(c: char, rest: Utf8)
    requires c as int < 0x800
    ensures BlankAt(EncodedCharacter(c) + rest) == if Characters.IsWhitespace(c) then |EncodedCharacter(c)| else 0
  {
    var bytes := EncodedCharacter(c);
    assert (bytes + rest)[0] == bytes[0] && (|bytes| > 1 ==> (bytes + rest)[1] == bytes[1]);
  }

  lemma LongBlankIsWhitespace(c: char, rest: Utf8)
    requires c as int >= 0x800
    ensures BlankAt(EncodedCharacter(c) + rest) == if Characters.IsWhitespace(c) then |EncodedCharacter(c)| else 0
  {
    var bytes := EncodedCharacter(c);
    var s := bytes + rest;
    assert s[0] == bytes[0] && s[1] == bytes[1] && s[2] == bytes[2];
  }

  function TrimStart(s: Utf8): Utf8
    decreases |s|
  {
    if BlankAt(s) == 0 then s else TrimStart(s[BlankAt(s)..])
  }

  /** Bytes of the White_Space character that `s` ends with; 0 if it ends with none. */
  function BlankBeforeEnd(s: Utf8): (n: nat)
    ensures n <= |s|
    ensures forall i :: |s| - n <= i < |s| ==> !IsDigit(s[i])
  {
    if |s| >= 1 && BlankAt(s[|s| - 1..]) == 1 then LastBytesAreBlank(s, 1); 1
    else if |s| >= 2 && BlankAt(s[|s| - 2..]) == 2 then LastBytesAreBlank(s, 2); 2
    else if |s| >= 3 && BlankAt(s[|s| - 3..]) == 3 then LastBytesAreBlank(s, 3); 3
    else 0
  }

  lemma LastBytesAreBlank(s: Utf8, n: nat)
    requires n <= |s| && BlankAt(s[|s| - n..]) == n
    ensures forall i :: |s| - n <= i < |s| ==> !IsDigit(s[i])
  {
    hide BlankAt;
    forall i | |s| - n <= i < |s| ensures !IsDigit(s[i]) {
      assert s[i] == s[|s| - n..][i - (|s| - n)];
    }
  }

  function TrimEnd(s: Utf8): Utf8
    decreases |s|
  {
    var n := BlankBeforeEnd(s);
    if n == 0 then s else TrimEnd(s[..|s| - n])
  }

  /** Milliseconds since the epoch. */
  function ParseIso8601Ms(value: Utf8): Option<int> {
    ParseTrimmed(TrimEnd(TrimStart(value)))
  }

  function ParseTrimmed(value: Utf8): Option<int> {
    if |value| < 19 then None
    else if value[4] != '-' || value[7] != '-' || (value[10] != 'T' && value[10] != ' ') then None
    else
      match (ParseInt(value[0..4]), ParseInt(value[5..7]), ParseInt(value[8..10]),
             ParseInt(value[11..13]), ParseInt(value[14..16]), ParseInt(value[17..19]))
      case (Some(year), Some(month), Some(day), Some(hour), Some(minute), Some(second)) =>
        if !(1 <= month <= 12) || !(1 <= day <= 31) || hour > 23 || minute > 59 then None
        else Some((DaysFromCivil(year, month, day) * 86_400 + hour * 3_600 + minute * 60 + Min(second, 59)) * 1_000)
      case _ => None
  }

  function Digit(c: char): int {
    (c as int) - ('0' as int)
  }

  function Two(value: Utf8, at: nat): int
    requires at + 2 <= |value|
  {
    Digit(value[at]) * 10 + Digit(value[at + 1])
  }

  function DateOf(value: Utf8): Date
    requires 19 <= |value|
  {
    Date(Two(value, 0) * 100 + Two(value, 2), Two(value, 5), Two(value, 8))
  }

  /** The shape of section 5.6 of RFC 3339 up to the seconds: fixed fields of digits. */
  predicate WellFormed(value: Utf8) {
    && 19 <= |value|
    && (forall i :: 0 <= i < 19 && i !in {4, 7, 10, 13, 16} ==> IsDigit(value[i]))
    && value[4] == '-' && value[7] == '-' && (value[10] == 'T' || value[10] == ' ')
    && value[13] == ':' && value[16] == ':'
  }

  /** A date of the calendar, and a time of day in which a minute may have a leap second. */
  predicate RealTimestamp(value: Utf8) {
    && WellFormed(value)
    && Real(DateOf(value))
    && Two(value, 11) <= 23 && Two(value, 14) <= 59 && Two(value, 17) <= 60
  }

  lemma ParseTwo(value: Utf8, at: nat)
    requires at + 2 <= |value| && IsDigit(value[at]) && IsDigit(value[at + 1])
    ensures ParseInt(value[at..at + 2]) == Some(Two(value, at))
  {
    var text := value[at..at + 2];
    assert text[..1][..0] == "";
    assert NumberOf(text[..1]) == Digit(text[0]);
  }

  lemma ParseFour(value: Utf8)
    requires 4 <= |value| && forall i :: 0 <= i < 4 ==> IsDigit(value[i])
    ensures ParseInt(value[0..4]) == Some(Two(value, 0) * 100 + Two(value, 2))
  {
    var text := value[0..4];
    assert text[..3][..2] == text[..2] && text[..2][..1] == text[..1] && text[..1][..0] == "";
    assert NumberOf(text[..1]) == Digit(text[0]);
    assert NumberOf(text[..2]) == Two(value, 0);
    assert NumberOf(text[..3]) == Two(value, 0) * 10 + Digit(text[2]);
  }

  /** Seconds since midnight, the leap second counted with the one before it. */
  function SecondOfDay(value: Utf8): int
    requires 19 <= |value|
  {
    Two(value, 11) * 3_600 + Two(value, 14) * 60 + Min(Two(value, 17), 59)
  }

  /** White space before a timestamp does not matter. */
  lemma {:induction false} LeadingBlanksAreIgnored(blank: Utf8, value: Utf8)
    requires TrimStart(blank) == ""
    ensures ParseIso8601Ms(blank + value) == ParseIso8601Ms(value)
    decreases |blank|
  {
    var n := BlankAt(blank);
    if blank == "" {
      assert blank + value == value;
    } else {
      assert BlankAt(blank + value) == n && n > 0;
      assert (blank + value)[n..] == blank[n..] + value;
      LeadingBlanksAreIgnored(blank[n..], value);
    }
  }

  /** Trimming the end leaves a text alone up to any digit in it. */
  lemma {:induction false} TrimEndKeeps(s: Utf8, length: nat)
    requires 0 < length <= |s| && IsDigit(s[length - 1])
    ensures length <= |TrimEnd(s)| && TrimEnd(s)[..length] == s[..length]
    decreases |s|
  {
    hide BlankBeforeEnd;
    var n := BlankBeforeEnd(s);
    if n > 0 {
      assert length <= |s| - n;
      TrimEndKeeps(s[..|s| - n], length);
      assert s[..|s| - n][..length] == s[..length];
    }
  }

  lemma SameSlice(a: Utf8, b: Utf8, i: nat, j: nat)
    requires i <= j <= 19 <= |a| && 19 <= |b| && a[..19] == b[..19]
    ensures a[i..j] == b[i..j]
  {
    forall k | 0 <= k < j - i ensures a[i..j][k] == b[i..j][k] {
      assert a[i + k] == a[..19][i + k] && b[i + k] == b[..19][i + k];
    }
  }

  /** Only the first nineteen bytes are read. */
  lemma ParseReadsPrefix(a: Utf8, b: Utf8)
    requires 19 <= |a| && 19 <= |b| && a[..19] == b[..19]
    ensures ParseTrimmed(a) == ParseTrimmed(b)
  {
    hide ParseInt, DaysFromCivil;
    assert a[4] == a[..19][4] && a[7] == a[..19][7] && a[10] == a[..19][10];
    assert b[4] == b[..19][4] && b[7] == b[..19][7] && b[10] == b[..19][10];
    SameSlice(a, b, 0, 4);
    SameSlice(a, b, 5, 7);
    SameSlice(a, b, 8, 10);
    SameSlice(a, b, 11, 13);
    SameSlice(a, b, 14, 16);
    SameSlice(a, b, 17, 19);
  }

  /** The fields are in the ranges the parser checks; seconds are not checked at all. */
  predicate Accepted(value: Utf8) {
    && WellFormed(value)
    && 1 <= Two(value, 5) <= 12 && 1 <= Two(value, 8) <= 31 && Two(value, 11) <= 23 && Two(value, 14) <= 59
  }

  lemma TrimmingKeeps(value: Utf8)
    requires WellFormed(value)
    ensures ParseIso8601Ms(value) == ParseTrimmed(value)
  {
    hide ParseTrimmed;
    assert IsDigit(value[0]) && BlankAt(value) == 0;
    TrimEndKeeps(value, 19);
    ParseReadsPrefix(TrimEnd(value), value);
  }

  lemma ParseOfWellFormed(value: Utf8)
    requires WellFormed(value)
    ensures ParseIso8601Ms(value)
            == if Accepted(value) then Some((Days(DateOf(value)) * 86_400 + SecondOfDay(value)) * 1_000) else None
    ensures Accepted(value) ==> 0 <= SecondOfDay(value) < 86_400
  {
    hide ParseInt, DaysFromCivil, ParseIso8601Ms;
    TrimmingKeeps(value);
    ParseFour(value);
    ParseTwo(value, 5);
    ParseTwo(value, 8);
    ParseTwo(value, 11);
    ParseTwo(value, 14);
    ParseTwo(value, 17);
  }

  /** `a` is before `b` as text: they first differ at `k`, among the date and time. */
  predicate TextBefore(a: Utf8, b: Utf8, k: nat) {
    k < 19 && 19 <= |a| && 19 <= |b| && (forall i :: 0 <= i < k ==> a[i] == b[i]) && a[k] < b[k]
  }

  lemma EarlierDate(a: Utf8, b: Utf8, k: nat)
    requires WellFormed(a) && WellFormed(b) && TextBefore(a, b, k) && k < 10
    ensures Earlier(DateOf(a), DateOf(b))
  {
    assert k != 4 && k != 7;
    if k < 4 {
      SmallerNumber(a, b, k);
    } else if k < 7 {
      assert a[0] == b[0] && a[1] == b[1] && a[2] == b[2] && a[3] == b[3];
    } else {
      assert a[0] == b[0] && a[1] == b[1] && a[2] == b[2] && a[3] == b[3] && a[5] == b[5] && a[6] == b[6];
    }
  }

  lemma SmallerNumber(a: Utf8, b: Utf8, k: nat)
    requires WellFormed(a) && WellFormed(b) && TextBefore(a, b, k) && k < 4
    ensures DateOf(a).year < DateOf(b).year
  {
    assert IsDigit(a[1]) && IsDigit(a[2]) && IsDigit(a[3]) && IsDigit(b[1]) && IsDigit(b[2]) && IsDigit(b[3]);
    assert k > 0 ==> a[0] == b[0];
    assert k > 1 ==> a[1] == b[1];
    assert k > 2 ==> a[2] == b[2];
  }

  lemma EarlierTime(a: Utf8, b: Utf8, k: nat)
    requires Accepted(a) && Accepted(b) && TextBefore(a, b, k) && k > 10
    ensures DateOf(a) == DateOf(b)
    ensures SecondOfDay(a) <= SecondOfDay(b)
    ensures SecondOfDay(a) == SecondOfDay(b) <==> k >= 17 && Two(a, 17) >= 59
  {
    assert a[0] == b[0] && a[1] == b[1] && a[2] == b[2] && a[3] == b[3];
    assert a[5] == b[5] && a[6] == b[6] && a[8] == b[8] && a[9] == b[9];
    assert k > 12 ==> Two(a, 11) == Two(b, 11);
    assert k > 15 ==> Two(a, 14) == Two(b, 14);
    assert k <= 12 ==> Two(a, 11) < Two(b, 11);
    assert 12 < k <= 15 ==> Two(a, 14) < Two(b, 14);
    assert k >= 16 ==> Two(a, 17) < Two(b, 17);
  }

  /** What parsing an accepted timestamp gives. */
  function Moment(value: Utf8): int
    requires Accepted(value)
  {
    (Days(DateOf(value)) * 86_400 + SecondOfDay(value)) * 1_000
  }

  lemma MomentIsParsed(value: Utf8)
    requires Accepted(value)
    ensures ParseIso8601Ms(value) == Some(Moment(value)) && 0 <= SecondOfDay(value) < 86_400
  {
    ParseOfWellFormed(value);
  }

  lemma RealDatesSort(a: Utf8, b: Utf8, k: nat)
    requires Accepted(a) && Accepted(b) && Real(DateOf(a)) && Real(DateOf(b)) && a[10] == b[10] && TextBefore(a, b, k)
    ensures Moment(a) <= Moment(b)
    ensures Moment(a) == Moment(b) <==> k >= 17 && Two(a, 17) >= 59
  {
    MomentIsParsed(a);
    MomentIsParsed(b);
    hide DaysFromCivil, WellFormed, SecondOfDay;
    if k < 10 {
      EarlierDate(a, b, k);
      CountFollowsCalendar(DateOf(a), DateOf(b));
    } else {
      EarlierTime(a, b, k);
    }
  }

  /** Timestamps of real moments written the same way sort as text the way they sort in time;
      only a leap second counts as the second it follows. */
  lemma TextOrderIsTimeOrder(a: Utf8, b: Utf8, k: nat)
    requires RealTimestamp(a) && RealTimestamp(b) && a[10] == b[10] && TextBefore(a, b, k)
    ensures ParseIso8601Ms(a).Some? && ParseIso8601Ms(b).Some?
    ensures ParseIso8601Ms(a).value <= ParseIso8601Ms(b).value
    ensures ParseIso8601Ms(a).value == ParseIso8601Ms(b).value <==> k >= 17 && Two(a, 17) == 59 && Two(b, 17) == 60
  {
    hide ParseIso8601Ms, Moment;
    MomentIsParsed(a);
    MomentIsParsed(b);
    RealDatesSort(a, b, k);
    assert k >= 17 ==> Two(a, 17) < Two(b, 17);
  }

  // ------------------------------------------------------- days that do not exist

  /** Against every real timestamp, text order implies the order of the parsed values. */
  ghost predicate SortsInTime(a: Utf8)
    requires Accepted(a)
  {
    forall b, k :: RealTimestamp(b) && a[10] == b[10] ==>
      (TextBefore(a, b, k) ==> Moment(a) <= Moment(b)) && (TextBefore(b, a, k) ==> Moment(b) <= Moment(a))
  }

  /** Midnight right after the last day of a month, written as a day more than the month has. */
  predicate IsMonthsEnd(a: Utf8)
    requires 19 <= |a|
  {
    DateOf(a).day == DaysInMonth(DateOf(a).year, DateOf(a).month) + 1 && SecondOfDay(a) == 0
  }

  /** A day beyond its month counts as one of the next month's, of the same year. */
  lemma SpillsOver(date: Date)
    requires 1 <= date.month <= 12 && DaysInMonth(date.year, date.month) < date.day <= 31
    ensures date.month < 12 && Real(Date(date.year, date.month + 1, 1))
    ensures Days(date) == Days(Date(date.year, date.month + 1, 1)) + date.day - DaysInMonth(date.year, date.month) - 1
  {
    hide Days, YearDays;
    DaysInClosedForm(date);
    DaysInClosedForm(date.(day := 1));
    MonthHasItsDays(date.year, date.month);
  }

  lemma NoneBetween(date: Date, other: Date)
    requires 1 <= date.month < 12 && date.day == DaysInMonth(date.year, date.month) + 1 && Real(other)
    ensures var next := Date(date.year, date.month + 1, 1);
            && (Earlier(date, other) ==> next == other || Earlier(next, other))
            && (Earlier(other, date) ==> Earlier(other, next))
  {
  }

  lemma MonthsEndIsMidnight(a: Utf8)
    requires Accepted(a) && !Real(DateOf(a)) && IsMonthsEnd(a)
    ensures DateOf(a).month < 12 && Real(Date(DateOf(a).year, DateOf(a).month + 1, 1))
    ensures Moment(a) == Days(Date(DateOf(a).year, DateOf(a).month + 1, 1)) * 86_400_000
  {
    hide Days;
    SpillsOver(DateOf(a));
  }

  lemma MonthsEndIsBefore(a: Utf8, b: Utf8, k: nat)
    requires Accepted(a) && !Real(DateOf(a)) && IsMonthsEnd(a) && RealTimestamp(b) && a[10] == b[10]
    requires TextBefore(a, b, k)
    ensures Moment(a) <= Moment(b)
  {
    MonthsEndIsMidnight(a);
    MomentIsParsed(b);
    var next := Date(DateOf(a).year, DateOf(a).month + 1, 1);
    assert k < 10 by {
      if k > 10 { EarlierTime(a, b, k); }
    }
    EarlierDate(a, b, k);
    NoneBetween(DateOf(a), DateOf(b));
    hide Days, WellFormed, SecondOfDay, TextBefore;
    if next != DateOf(b) {
      CountFollowsCalendar(next, DateOf(b));
    }
  }

  lemma MonthsEndIsAfter(a: Utf8, b: Utf8, k: nat)
    requires Accepted(a) && !Real(DateOf(a)) && IsMonthsEnd(a) && RealTimestamp(b) && a[10] == b[10]
    requires TextBefore(b, a, k)
    ensures Moment(b) <= Moment(a)
  {
    MonthsEndIsMidnight(a);
    MomentIsParsed(b);
    var next := Date(DateOf(a).year, DateOf(a).month + 1, 1);
    assert k < 10 by {
      if k > 10 { EarlierTime(b, a, k); }
    }
    EarlierDate(b, a, k);
    NoneBetween(DateOf(a), DateOf(b));
    hide Days, WellFormed, SecondOfDay, TextBefore;
    CountFollowsCalendar(DateOf(b), next);
  }

  function Digits(n: int): (digits: Utf8)
    requires 0 <= n < 100
    ensures |digits| == 2 && IsDigit(digits[0]) && IsDigit(digits[1]) && Two(digits, 0) == n
  {
    [(n / 10) as char + '0', (n % 10) as char + '0']
  }

  /** Midnight of the first day of the month after the one in `a`. */
  function NextMonth(a: Utf8): Utf8
    requires Accepted(a) && Two(a, 5) < 12
  {
    a[..5] + Digits(Two(a, 5) + 1) + "-01" + [a[10]] + "00:00:00"
  }

  lemma NextMonthIsReal(a: Utf8)
    requires Accepted(a) && Two(a, 5) < 12
    ensures RealTimestamp(NextMonth(a)) && SecondOfDay(NextMonth(a)) == 0
    ensures DateOf(NextMonth(a)) == Date(DateOf(a).year, DateOf(a).month + 1, 1)
  {
    hide Digits;
    var month, b := Digits(Two(a, 5) + 1), NextMonth(a);
    assert b[..5] == a[..5] && b[5] == month[0] && b[6] == month[1] && b[7..] == "-01" + [a[10]] + "00:00:00";
    assert b[0] == a[0] && b[1] == a[1] && b[2] == a[2] && b[3] == a[3] && b[4] == a[4];
    assert Two(b, 5) == Two(a, 5) + 1;
  }

  lemma NextMonthIsLaterAsText(a: Utf8)
    requires Accepted(a) && Two(a, 5) < 12
    ensures TextBefore(a, NextMonth(a), if a[5] == NextMonth(a)[5] then 6 else 5)
  {
    hide Digits;
    var month, b := Digits(Two(a, 5) + 1), NextMonth(a);
    assert b[..5] == a[..5] && b[5] == month[0] && b[6] == month[1];
    assert forall i :: 0 <= i < 5 ==> a[i] == a[..5][i] && b[i] == b[..5][i];
  }

  /** On a day no calendar has the two orders part, unless it stands for a midnight: `a` is
      before the next month as text and after its beginning in time. */
  lemma UnrealDatesBreakOrder(a: Utf8) returns (b: Utf8, k: nat)
    requires Accepted(a) && !Real(DateOf(a)) && !IsMonthsEnd(a)
    ensures RealTimestamp(b) && a[10] == b[10] && TextBefore(a, b, k)
    ensures Moment(a) > Moment(b)
  {
    SpillsOver(DateOf(a));
    hide Days, Digits, WellFormed;
    b := NextMonth(a);
    k := if a[5] == b[5] then 6 else 5;
    NextMonthIsReal(a);
    NextMonthIsLaterAsText(a);
    assert b[10] == a[10];
    MomentIsParsed(a);
  }

  /** A timestamp sorts in time with all real ones exactly when its day is real, or is one past
      the end of its month at the stroke of midnight. */
  lemma SortsInTimeIff(a: Utf8)
    requires Accepted(a)
    ensures SortsInTime(a) <==> Real(DateOf(a)) || IsMonthsEnd(a)
  {
    if Real(DateOf(a)) {
      forall b, k | RealTimestamp(b) && a[10] == b[10]
        ensures TextBefore(a, b, k) ==> Moment(a) <= Moment(b)
        ensures TextBefore(b, a, k) ==> Moment(b) <= Moment(a)
      {
        if TextBefore(a, b, k) {
          RealDatesSort(a, b, k);
        } else if TextBefore(b, a, k) {
          RealDatesSort(b, a, k);
        }
      }
    } else if IsMonthsEnd(a) {
      forall b, k | RealTimestamp(b) && a[10] == b[10]
        ensures TextBefore(a, b, k) ==> Moment(a) <= Moment(b)
        ensures TextBefore(b, a, k) ==> Moment(b) <= Moment(a)
      {
        if TextBefore(a, b, k) {
          MonthsEndIsBefore(a, b, k);
        } else if TextBefore(b, a, k) {
          MonthsEndIsAfter(a, b, k);
        }
      }
    } else {
      var b, k := UnrealDatesBreakOrder(a);
      assert !SortsInTime(a);
    }
  }
}
