/** From epoch seconds to a printed UTC instant, as `readiness.rs` computes it,
    and the validator of `ledger.rs` that the result must pass. */
module Epoch {
  import opened Wrappers
  import opened Utf8
  import opened Hexadecimal
  import opened Calendar
  import opened Splitting

  const DAY: nat := 86_400

  /** The last second of the year 9999. */
  const LAST_SECOND: nat := 253_402_300_799

  // -----------------------------------------------------------------------
  // Era arithmetic

  function YearOfEra(dayOfEra: nat): int {
    (dayOfEra - dayOfEra / 1_460 + dayOfEra / 36_524 - dayOfEra / 146_096) / 365
  }

  /** The date of a day since the epoch. */
  function CivilDate(days: nat): (int, int, int) {
    var shifted := days + 719_468;
    var era := shifted / 146_097;
    var dayOfEra := shifted - era * 146_097;
    var yearOfEra := YearOfEra(dayOfEra);
    var dayOfYear := dayOfEra - (365 * yearOfEra + yearOfEra / 4 - yearOfEra / 100);
    var monthPrime := (5 * dayOfYear + 2) / 153;
    var day := dayOfYear - (153 * monthPrime + 2) / 5 + 1;
    var month := monthPrime + if monthPrime < 10 then 3 else -9;
    (yearOfEra + era * 400 + (if month <= 2 then 1 else 0), month, day)
  }

  /** A day of an era by century, four-year cycle, year and day of a year that
      starts in March. */
  lemma EraParts(dayOfEra: nat) returns (c: nat, q: nat, k: nat, d: nat)
    requires dayOfEra < 146_097
    ensures c < 4 && q < 25 && k < 4 && d <= 365 && (d == 365 ==> k == 3 && (q < 24 || c == 3))
    ensures dayOfEra == 36_524 * c + 1_461 * q + 365 * k + d
  {
    c := if dayOfEra == 146_096 then 3 else dayOfEra / 36_524;
    var r := dayOfEra - 36_524 * c;
    q := r / 1_461;
    var s := r - 1_461 * q;
    k := if s == 1_460 then 3 else s / 365;
    d := s - 365 * k;
  }

  /** The division formula finds the year in every part of the era. */
  lemma YearOfEraIsYear(dayOfEra: nat, c: nat, q: nat, k: nat, d: nat)
    requires c < 4 && q < 25 && k < 4 && d <= 365 && (d == 365 ==> k == 3 && (q < 24 || c == 3))
    requires dayOfEra == 36_524 * c + 1_461 * q + 365 * k + d
    ensures YearOfEra(dayOfEra) == 100 * c + 4 * q + k
  {
    var carry := (24 * c + q + 365 * k + d) / 1_460;
    assert 24 * c + q + 365 * k + d < 2_920;
    assert dayOfEra == 1_460 * (25 * c + q) + (24 * c + q + 365 * k + d);
    assert dayOfEra / 1_460 == 25 * c + q + carry;
    var last := if dayOfEra == 146_096 then 1 else 0;
    assert dayOfEra / 146_096 == last;
    assert dayOfEra / 36_524 == c + last;
    assert 0 <= d - carry < 365;
    assert dayOfEra - dayOfEra / 1_460 + dayOfEra / 36_524 - dayOfEra / 146_096
        == 365 * (100 * c + 4 * q + k) + (d - carry);
  }

  /** Months that count from March: five of 153 days in every ten. */
  lemma MonthPrime(d: nat)
    requires d <= 365
    ensures var m := (5 * d + 2) / 153;
            0 <= m <= 11 && (153 * m + 2) / 5 <= d && (m < 11 ==> d < (153 * (m + 1) + 2) / 5)
  {}

  lemma DaysBefore1970()
    ensures DaysBeforeYear(1970) == 719_528
  {
    MarchIsMarch(1970);
    MonthTable(1970, 3);
  }

  /** March to December: a day of the year that starts in March. */
  lemma LateMonths(year: nat, d: nat, prime: nat)
    requires prime < 10 && (153 * prime + 2) / 5 <= d < (153 * (prime + 1) + 2) / 5
    ensures var date := Date(year, prime + 3, d - (153 * prime + 2) / 5 + 1);
            ValidDate(date) && DayNumber(date) == MarchDays(year) + 60 + d
  {
    MarchIsMarch(year);
    MonthTable(year, prime + 3);
  }

  /** January and February, which belong to the next year. */
  lemma EarlyMonths(year: nat, d: nat, prime: nat)
    requires (prime == 10 && 306 <= d < 337) || (prime == 11 && 337 <= d <= 365 && (d == 365 ==> Leap(year + 1)))
    ensures var date := Date(year + 1, prime - 9, d - (153 * prime + 2) / 5 + 1);
            ValidDate(date) && DayNumber(date) == MarchDays(year) + 60 + d
  {
    MarchIsMarch(year);
    MonthTable(year, 3);
    MonthTable(year + 1, prime - 9);
  }

  /** A year that starts in March, and a day in it, as a date. */
  lemma FromMarch(year: nat, d: nat)
    requires d <= 365 && (d == 365 ==> Leap(year + 1))
    ensures var prime := (5 * d + 2) / 153;
            var m := prime + if prime < 10 then 3 else -9;
            var date := Date(if m <= 2 then year + 1 else year, m, d - (153 * prime + 2) / 5 + 1);
            ValidDate(date) && DayNumber(date) == MarchDays(year) + 60 + d
  {
    hide ValidDate, DayNumber, MarchDays, Leap;
    var prime := (5 * d + 2) / 153;
    MonthPrime(d);
    if prime < 10 {
      LateMonths(year, d, prime);
    } else {
      EarlyMonths(year, d, prime);
    }
  }

  lemma ShiftedYear(days: nat) returns (year: nat, d: nat)
    ensures d <= 365 && (d == 365 ==> Leap(year + 1))
    ensures days + 719_468 == MarchDays(year) + d
    ensures var shifted := days + 719_468;
            var era := shifted / 146_097;
            var dayOfEra := shifted - era * 146_097;
            var yearOfEra := YearOfEra(dayOfEra);
            yearOfEra + era * 400 == year
            && dayOfEra - (365 * yearOfEra + yearOfEra / 4 - yearOfEra / 100) == d
  {
    var shifted := days + 719_468;
    var era := shifted / 146_097;
    var dayOfEra := shifted - era * 146_097;
    var c, q, k, day := EraParts(dayOfEra);
    d := day;
    YearOfEraIsYear(dayOfEra, c, q, k, d);
    year := 400 * era + 100 * c + 4 * q + k;
    hide YearOfEra, Leap;
    InCycle(era, c, q, k);
    InCycle(0, c, q, k);
    if d == 365 {
      if q < 24 { InCycle(era, c, q + 1, 0); } else { InCycle(era + 1, 0, 0, 0); }
    }
  }

  lemma YearReached(d: Date, year: nat)
    requires ValidDate(d)
    ensures DayNumber(d) >= DaysBeforeYear(year) <==> d.year >= year
  {
    DayInYear(d);
    if d.year < year {
      YearsGrow(d.year, year);
    } else if year < d.year {
      YearsGrow(year, d.year);
    }
  }

  /** The computed date is the valid date whose day number is that of the day. */
  lemma CivilDateIsExact(days: nat)
    ensures var (y, m, d) := CivilDate(days);
            y >= 1970 && m >= 0 && d >= 0 && ValidDate(Date(y, m, d))
            && DayNumber(Date(y, m, d)) == days + DaysBeforeYear(1970)
  {
    hide ValidDate, DayNumber, MarchDays, Leap, YearOfEra, DaysBeforeYear, YearLength;
    var year, d := ShiftedYear(days);
    FromMarch(year, d);
    DaysBefore1970();
    var (y, m, day) := CivilDate(days);
    var date := Date(y, m, day);
    YearReached(date, 1970);
  }

  // -----------------------------------------------------------------------
  // Printed instants

  /** `n` in decimal with `width` digits. */
  function Pad(n: nat, width: nat): (s: seq<byte>)
    ensures |s| == width && forall i :: 0 <= i < width ==> Digit(s[i])
  {
    if width == 0 then [] else Pad(n / 10, width - 1) + [0x30 + n % 10]
  }

  datatype Time = Time(hour: nat, minute: nat, second: nat)

  predicate ValidTime(t: Time) {
    t.hour < 24 && t.minute < 60 && t.second < 60
  }

  function PrintDate(d: Date): seq<byte> {
    Pad(d.year, 4) + [0x2D] + Pad(d.month, 2) + [0x2D] + Pad(d.day, 2)
  }

  function PrintTime(t: Time): seq<byte> {
    Pad(t.hour, 2) + [0x3A] + Pad(t.minute, 2) + [0x3A] + Pad(t.second, 2)
  }

  /** `YYYY-MM-DDThh:mm:ssZ`. */
  function PrintInstant(d: Date, t: Time): seq<byte> {
    PrintDate(d) + [0x54] + PrintTime(t) + [0x5A]
  }

  function TimeOfDay(seconds: nat): Time {
    Time(seconds / 3_600, seconds % 3_600 / 60, seconds % 60)
  }

  function ParseDecimal(s: seq<byte>): (r: Option<nat>)
    ensures r.Some? ==> forall i :: 0 <= i < |s| ==> Digit(s[i])
  {
    if s == [] || exists i :: 0 <= i < |s| && !Digit(s[i]) then None
    else if Decimal(s) > MAX_U64 then None
    else Some(Decimal(s))
  }

  /** The date that text denotes under the validator's rules. */
  function ReadDate(text: seq<byte>): Option<Date> {
    var parts := Split(text, 0x2D);
    if |parts| != 3 || |parts[0]| != 4 || |parts[1]| != 2 || |parts[2]| != 2 then None
    else
      var year, month, day := ParseDecimal(parts[0]), ParseDecimal(parts[1]), ParseDecimal(parts[2]);
      if year.None? || month.None? || day.None? then None
      else
        var date := Date(year.value, month.value, day.value);
        if !ValidDate(date) || PrintDate(date) != text then None else Some(date)
  }

  function ReadTime(text: seq<byte>): Option<Time> {
    var parts := Split(text, 0x3A);
    if |parts| != 3 || |parts[0]| != 2 || |parts[1]| != 2 || |parts[2]| != 2 then None
    else
      var hour, minute, second := ParseDecimal(parts[0]), ParseDecimal(parts[1]), ParseDecimal(parts[2]);
      if hour.None? || minute.None? || second.None? then None
      else
        var time := Time(hour.value, minute.value, second.value);
        if !ValidTime(time) then None else Some(time)
  }

  /** `validate_utc_instant`. */
  predicate ValidInstant(text: seq<byte>) {
    && text != [] && text[|text| - 1] == 0x5A
    && var i := IndexOf(text, 0x54);
    && i < |text| - 1
    && var date, time := text[..i], text[i + 1..|text| - 1];
    && 0x54 !in time
    && ReadDate(date).Some? && ReadTime(time).Some?
    && date + [0x54] + PrintTime(ReadTime(time).value) + [0x5A] == text
  }

  function EvaluationInstant(seconds: nat): Option<seq<byte>> {
    CivilDateIsExact(seconds / DAY);
    var (year, month, day) := CivilDate(seconds / DAY);
    if !(0 <= year <= 9_999) then None
    else
      var instant := PrintInstant(Date(year, month, day), TimeOfDay(seconds % DAY));
      if ValidInstant(instant) then Some(instant) else None
  }

  // -----------------------------------------------------------------------
  // The validator accepts exactly the printed instants

  function Pow10(n: nat): nat {
    if n == 0 then 1 else 10 * Pow10(n - 1)
  }

  lemma {:induction false} DecimalOfPad(n: nat, width: nat)
    requires n < Pow10(width)
    ensures Decimal(Pad(n, width)) == n
  {
    if width > 0 {
      DecimalOfPad(n / 10, width - 1);
      assert Pad(n, width)[..width - 1] == Pad(n / 10, width - 1);
    }
  }

  lemma {:induction false} DecimalBound(s: seq<byte>)
    requires forall i :: 0 <= i < |s| ==> Digit(s[i])
    ensures Decimal(s) < Pow10(|s|)
    decreases |s|
  {
    if s != [] {
      DecimalBound(s[..|s| - 1]);
      assert Digit(s[|s| - 1]);
    }
  }

  lemma ParsePad(n: nat, width: nat)
    requires 0 < width <= 4 && n < Pow10(width)
    ensures ParseDecimal(Pad(n, width)) == Some(n)
  {
    hide Pad, Decimal;
    DecimalOfPad(n, width);
    assert Pow10(width) <= Pow10(4) by {
      assert Pow10(1) == 10 && Pow10(2) == 100 && Pow10(3) == 1000 && Pow10(4) == 10000;
    }
  }

  lemma ReadPrintedDate(d: Date)
    requires ValidDate(d) && d.year <= 9_999
    ensures ReadDate(PrintDate(d)) == Some(d)
  {
    hide Split, ParseDecimal, Pad, ValidDate;
    SplitThree(Pad(d.year, 4), Pad(d.month, 2), Pad(d.day, 2), 0x2D);
    TwoDigits(d);
    ParsePad(d.year, 4);
    ParsePad(d.month, 2);
    ParsePad(d.day, 2);
  }

  lemma TwoDigits(d: Date)
    requires ValidDate(d)
    ensures d.month < Pow10(2) && d.day < Pow10(2) && Pow10(2) == 100 && Pow10(4) == 10_000
  {
    assert Pow10(1) == 10 && Pow10(2) == 100 && Pow10(3) == 1000 && Pow10(4) == 10000;
  }

  lemma ReadPrintedTime(t: Time)
    requires ValidTime(t)
    ensures ReadTime(PrintTime(t)) == Some(t)
  {
    hide Split, ParseDecimal, Pad;
    SplitThree(Pad(t.hour, 2), Pad(t.minute, 2), Pad(t.second, 2), 0x3A);
    assert Pow10(1) == 10 && Pow10(2) == 100;
    ParsePad(t.hour, 2);
    ParsePad(t.minute, 2);
    ParsePad(t.second, 2);
  }

  lemma PrintedIsValid(d: Date, t: Time)
    requires ValidDate(d) && d.year <= 9_999 && ValidTime(t)
    ensures ValidInstant(PrintInstant(d, t))
  {
    hide Pad, ValidDate, ValidTime, ReadDate, ReadTime;
    ReadPrintedDate(d);
    ReadPrintedTime(t);
    var text := PrintInstant(d, t);
    assert text == PrintDate(d) + [0x54] + (PrintTime(t) + [0x5A]);
    IndexOfFirst(PrintDate(d), 0x54, PrintTime(t) + [0x5A]);
    assert text[..|PrintDate(d)|] == PrintDate(d);
    assert text[|PrintDate(d)| + 1..|text| - 1] == PrintTime(t);
  }

  /** Nothing but the printed form of a date and a time is a valid instant. */
  lemma ValidIsPrinted(text: seq<byte>) returns (d: Date, t: Time)
    requires ValidInstant(text)
    ensures ValidDate(d) && d.year <= 9_999 && ValidTime(t) && text == PrintInstant(d, t)
  {
    hide PrintTime, PrintDate;
    var i := IndexOf(text, 0x54);
    var date, time := text[..i], text[i + 1..|text| - 1];
    d, t := ReadDate(date).value, ReadTime(time).value;
    var year := Split(date, 0x2D)[0];
    DecimalBound(year);
    assert Pow10(1) == 10 && Pow10(2) == 100 && Pow10(3) == 1000 && Pow10(4) == 10000;
  }

  // -----------------------------------------------------------------------
  // Main results

  lemma YearTenThousand()
    ensures DaysBeforeYear(10_000) == 3_652_425
  {
    MarchIsMarch(10_000);
    MonthTable(10_000, 3);
  }

  /** Exactly the seconds through the year 9999 have an instant, and it is the
      valid date and time of day that many seconds after 1970 began. */
  lemma InstantIsExact(seconds: nat) returns (d: Date, t: Time)
    ensures ValidDate(d) && d.year >= 1970 && ValidTime(t)
    ensures seconds == DAY * (DayNumber(d) - DaysBeforeYear(1970)) + 3_600 * t.hour + 60 * t.minute + t.second
    ensures d.year <= 9_999 <==> seconds <= LAST_SECOND
    ensures EvaluationInstant(seconds) == if seconds <= LAST_SECOND then Some(PrintInstant(d, t)) else None
  {
    hide ValidDate, DayNumber, CivilDate, ValidInstant, PrintInstant, DaysBeforeYear;
    CivilDateIsExact(seconds / DAY);
    var (year, month, day) := CivilDate(seconds / DAY);
    d, t := Date(year, month, day), TimeOfDay(seconds % DAY);
    DaysBefore1970();
    YearTenThousand();
    YearReached(d, 10_000);
    if d.year <= 9_999 {
      PrintedIsValid(d, t);
    }
  }

  lemma {:induction false} PadOrder(a: nat, b: nat, width: nat, x: seq<byte>, y: seq<byte>)
    requires a < Pow10(width) && b < Pow10(width)
    ensures ByteLess(Pad(a, width) + x, Pad(b, width) + y) <==> a < b || (a == b && ByteLess(x, y))
  {
    if width == 0 {
      assert Pad(a, width) + x == x && Pad(b, width) + y == y;
    } else {
      var last, other := [0x30 + a % 10] + x, [0x30 + b % 10] + y;
      PadOrder(a / 10, b / 10, width - 1, last, other);
      assert Pad(a, width) + x == Pad(a / 10, width - 1) + last;
      assert Pad(b, width) + y == Pad(b / 10, width - 1) + other;
      assert last[1..] == x && other[1..] == y;
    }
  }

  /** One padded field and a separator. */
  lemma FieldOrder(a: nat, b: nat, width: nat, separator: byte, x: seq<byte>, y: seq<byte>)
    requires a < Pow10(width) && b < Pow10(width)
    ensures ByteLess(Pad(a, width) + ([separator] + x), Pad(b, width) + ([separator] + y)) <==>
            a < b || (a == b && ByteLess(x, y))
  {
    SamePrefix([separator], x, y);
    PadOrder(a, b, width, [separator] + x, [separator] + y);
  }

  predicate TimeBefore(a: Time, b: Time) {
    a.hour < b.hour || (a.hour == b.hour && (a.minute < b.minute || (a.minute == b.minute && a.second < b.second)))
  }

  lemma TimeTextOrder(a: Time, b: Time, x: seq<byte>, y: seq<byte>)
    requires ValidTime(a) && ValidTime(b)
    ensures ByteLess(PrintTime(a) + x, PrintTime(b) + y) <==> TimeBefore(a, b) || (a == b && ByteLess(x, y))
  {
    hide Pad, ByteLess;
    assert Pow10(1) == 10 && Pow10(2) == 100;
    PadOrder(a.second, b.second, 2, x, y);
    var sx, sy := Pad(a.second, 2) + x, Pad(b.second, 2) + y;
    FieldOrder(a.minute, b.minute, 2, 0x3A, sx, sy);
    var mx, my := Pad(a.minute, 2) + ([0x3A] + sx), Pad(b.minute, 2) + ([0x3A] + sy);
    FieldOrder(a.hour, b.hour, 2, 0x3A, mx, my);
    assert PrintTime(a) + x == Pad(a.hour, 2) + ([0x3A] + mx);
    assert PrintTime(b) + y == Pad(b.hour, 2) + ([0x3A] + my);
  }

  lemma DateTextOrder(a: Date, b: Date, x: seq<byte>, y: seq<byte>)
    requires ValidDate(a) && ValidDate(b) && a.year <= 9_999 && b.year <= 9_999
    ensures ByteLess(PrintDate(a) + x, PrintDate(b) + y) <==> Before(a, b) || (a == b && ByteLess(x, y))
  {
    hide Pad, ByteLess, ValidDate;
    TwoDigits(a);
    TwoDigits(b);
    PadOrder(a.day, b.day, 2, x, y);
    var dx, dy := Pad(a.day, 2) + x, Pad(b.day, 2) + y;
    FieldOrder(a.month, b.month, 2, 0x2D, dx, dy);
    var mx, my := Pad(a.month, 2) + ([0x2D] + dx), Pad(b.month, 2) + ([0x2D] + dy);
    FieldOrder(a.year, b.year, 4, 0x2D, mx, my);
    assert PrintDate(a) + x == Pad(a.year, 4) + ([0x2D] + mx);
    assert PrintDate(b) + y == Pad(b.year, 4) + ([0x2D] + my);
  }

  /** Printed instants are ordered as byte strings just as their seconds are as
      numbers; in particular no two seconds print alike. */
  lemma InstantsAreOrdered(a: nat, b: nat)
    requires a <= LAST_SECOND && b <= LAST_SECOND
    ensures EvaluationInstant(a).Some? && EvaluationInstant(b).Some?
    ensures ByteLess(EvaluationInstant(a).value, EvaluationInstant(b).value) <==> a < b
  {
    hide ByteLess, ValidDate, DayNumber, EvaluationInstant, PrintDate, PrintTime;
    var d, t := InstantIsExact(a);
    var e, u := InstantIsExact(b);
    var x, y := PrintTime(t) + [0x5A], PrintTime(u) + [0x5A];
    TimeTextOrder(t, u, [0x5A], [0x5A]);
    SamePrefix([0x5A], [], []);
    NothingLess();
    DateTextOrder(d, e, [0x54] + x, [0x54] + y);
    SamePrefix([0x54], x, y);
    assert PrintInstant(d, t) == PrintDate(d) + ([0x54] + x);
    assert PrintInstant(e, u) == PrintDate(e) + ([0x54] + y);
    DayNumberOrder(d, e);
    SecondsOrder(DayNumber(d), t, DayNumber(e), u);
  }

  lemma NothingLess()
    ensures !ByteLess([], []) && [0x5A as byte] + [] == [0x5A as byte]
  {}

  lemma SecondsOrder(m: nat, t: Time, n: nat, u: Time)
    requires ValidTime(t) && ValidTime(u)
    ensures DAY * m + 3_600 * t.hour + 60 * t.minute + t.second <
            DAY * n + 3_600 * u.hour + 60 * u.minute + u.second <==>
              m < n || (m == n && TimeBefore(t, u))
  {}
}
