/** The dates shown for certificates (`src/commands/cert.rs`), against a plain Gregorian calendar. */
module Calendar {
  import opened Wrappers
  import opened Text

  // ---- the proleptic Gregorian calendar -------------------------------

  datatype Date = Date(year: int, month: int, day: int) {
    predicate Valid() {
      1 <= month <= 12 && 1 <= day <= MonthLength(year, month)
    }
  }

  predicate IsLeap(y: int) {
    y % 4 == 0 && (y % 100 != 0 || y % 400 == 0)
  }

  function YearLength(y: int): int {
    if IsLeap(y) then 366 else 365
  }

  function MonthLength(y: int, m: int): int {
    if m == 2 then if IsLeap(y) then 29 else 28
    else if m in {4, 6, 9, 11} then 30
    else 31
  }

  /** Days from 1970-01-01 to the first day of year `y`, year by year. */
  function DaysToYear(y: int): int
    decreases if y < 1970 then 1970 - y else y - 1970
  {
    if y == 1970 then 0
    else if y > 1970 then DaysToYear(y - 1) + YearLength(y - 1)
    else DaysToYear(y + 1) - YearLength(y)
  }

  /** Days from the first of January to the first of month `m`, month by month. */
  function DaysToMonth(y: int, m: int): int
    requires 1 <= m <= 12
    decreases m
  {
    if m == 1 then 0 else DaysToMonth(y, m - 1) + MonthLength(y, m - 1)
  }

  function DayNumber(date: Date): int
    requires date.Valid()
  {
    DaysToYear(date.year) + DaysToMonth(date.year, date.month) + date.day - 1
  }

  // ---- the program ----------------------------------------------------

  /** Division of `i64`: truncates toward zero. */
  function Quotient(a: int, b: int): int
    requires b > 0
  {
    if a >= 0 then a / b else -((-a) / b)
  }

  /** `as i32`. */
  function ToI32(n: int): int {
    (n + 0x8000_0000) % 0x1_0000_0000 - 0x8000_0000
  }

  /** The date before the year is narrowed to 32 bits. */
  function WideDate(days: int): Date {
    var z := days + 719_468;
    var era := Quotient(if z >= 0 then z else z - 146_096, 146_097);
    var doe := z - era * 146_097;
    var yoe := Quotient(doe - Quotient(doe, 1460) + Quotient(doe, 36524) - Quotient(doe, 146_096), 365);
    var y := yoe + era * 400;
    var doy := doe - (365 * yoe + Quotient(yoe, 4) - Quotient(yoe, 100));
    var mp := Quotient(5 * doy + 2, 153);
    var d := doy - Quotient(153 * mp + 2, 5) + 1;
    var m := if mp < 10 then mp + 3 else mp - 9;
    Date(if m <= 2 then y + 1 else y, m, d)
  }

  function DaysToYmd(days: int): Date {
    var wide := WideDate(days);
    wide.(year := ToI32(wide.year))
  }

  /** `{n:0w}` on a non-negative number. */
  function Pad(n: nat, w: nat): string {
    var digits := NatText(n);
    seq(if |digits| < w then w - |digits| else 0, _ => '0') + digits
  }

  /** `{y:04}`: the sign takes one of the four places. */
  function YearText(y: int): string {
    if y < 0 then "-" + Pad(-y, 3) else Pad(y, 4)
  }

  function DateText(date: Date): string
    requires date.month >= 0 && date.day >= 0
  {
    YearText(date.year) + "-" + Pad(date.month, 2) + "-" + Pad(date.day, 2)
  }

  // ---- year arithmetic ------------------------------------------------

  /** Leap days from year 0 up to and including year `y`. */
  function LeapDays(y: int): int {
    y / 4 - y / 100 + y / 400
  }

  lemma QuotientStep(y: int, n: int)
    requires n == 4 || n == 100 || n == 400
    ensures y / n == (y - 1) / n + if y % n == 0 then 1 else 0
  {
    var q, r := y / n, y % n;
    if n == 4 {
      assert y == 4 * q + r;
    } else if n == 100 {
      assert y == 100 * q + r;
    } else {
      assert y == 400 * q + r;
    }
  }

  lemma MultipleOf(q: int, y: int, factor: int, n: int)
    requires (n == 4 && factor == 25) || (n == 100 && factor == 4)
    ensures y == q * (factor * n) ==> y % n == 0
  {
    if n == 4 {
      assert q * 100 == (25 * q) * 4;
    } else {
      assert q * 400 == (4 * q) * 100;
    }
  }

  lemma MultiplesNest(y: int)
    ensures y % 400 == 0 ==> y % 100 == 0
    ensures y % 100 == 0 ==> y % 4 == 0
  {
    MultipleOf(y / 400, y, 4, 100);
    MultipleOf(y / 100, y, 25, 4);
  }

  lemma LeapDaysStep(y: int)
    ensures LeapDays(y) == LeapDays(y - 1) + if IsLeap(y) then 1 else 0
  {
    QuotientStep(y, 4);
    QuotientStep(y, 100);
    QuotientStep(y, 400);
    MultiplesNest(y);
  }

  lemma {:induction false} DaysToYearClosed(y: int)
    ensures DaysToYear(y) == 365 * (y - 1) + LeapDays(y - 1) - 719_162
    decreases if y < 1970 then 1970 - y else y - 1970
  {
    if y > 1970 {
      DaysToYearClosed(y - 1);
      LeapDaysStep(y - 1);
    } else if y < 1970 {
      DaysToYearClosed(y + 1);
      LeapDaysStep(y);
    }
  }

  /** Days from 1970-01-01 to the first of March of year `y`. */
  lemma DaysToMarch(y: int)
    ensures DaysToYear(y) + 59 + (if IsLeap(y) then 1 else 0) == 365 * y + LeapDays(y) - 719_468
    ensures DaysToYear(y + 1) == 365 * y + LeapDays(y) - 719_468 + 306
  {
    DaysToYearClosed(y);
    DaysToYearClosed(y + 1);
    LeapDaysStep(y);
  }

  /**
   A day of a 400-year era, split by centuries, four-year cycles, years and
   days: the one-line formula finds the year.
   */
  lemma YearOfEra(doe: int, c: int, a: int, b: int, k: int)
    requires 0 <= c <= 3 && 0 <= a <= 24 && 0 <= b <= 3 && 0 <= k <= 365
    requires doe == 36524 * c + 1461 * a + 365 * b + k
    requires k == 365 ==> b == 3 && (a < 24 || c == 3)
    ensures (doe - doe / 1460 + doe / 36524 - doe / 146_096) / 365 == 100 * c + 4 * a + b
  {
    var late := if 24 * c + a + 365 * b + k >= 1460 then 1 else 0;
    assert doe / 1460 == 25 * c + a + late by {
      assert doe == 1460 * (25 * c + a + late) + (24 * c + a + 365 * b + k - 1460 * late);
    }
    var last := if doe == 146_096 then 1 else 0;
    assert doe / 36524 == c + last;
    assert doe / 146_096 == last;
    assert doe - doe / 1460 + doe / 36524 - doe / 146_096 == 365 * (100 * c + 4 * a + b) + k - late;
  }

  /** The year of the era and the day of that year, counted from March. */
  lemma DayOfEra(doe: int)
    requires 0 <= doe <= 146_096
    ensures var yoe := (doe - doe / 1460 + doe / 36524 - doe / 146_096) / 365;
      && 0 <= yoe <= 399
      && var doy := doe - (365 * yoe + yoe / 4 - yoe / 100);
         0 <= doy <= 365 && (doy == 365 ==> IsLeap(yoe + 1))
  {
    var c := if doe == 146_096 then 3 else doe / 36524;
    var r := doe - 36524 * c;
    var a := r / 1461;
    var s := r - 1461 * a;
    var b := if s == 1460 then 3 else s / 365;
    var k := s - 365 * b;
    YearOfEra(doe, c, a, b, k);
    var yoe := 100 * c + 4 * a + b;
    assert yoe / 4 == 25 * c + a;
    assert yoe / 100 == c;
    if k == 365 {
      assert (yoe + 1) % 4 == 0;
      assert a < 24 ==> (yoe + 1) % 100 != 0;
      assert a == 24 ==> yoe + 1 == 400;
    }
  }

  // ---- months ---------------------------------------------------------

  /** The first days of the months, counted from the first of January. */
  lemma MonthStarts(y: int)
    ensures var leap := if IsLeap(y) then 1 else 0;
      && DaysToMonth(y, 1) == 0 && DaysToMonth(y, 2) == 31 && DaysToMonth(y, 3) == 59 + leap
      && DaysToMonth(y, 4) == 90 + leap && DaysToMonth(y, 5) == 120 + leap && DaysToMonth(y, 6) == 151 + leap
      && DaysToMonth(y, 7) == 181 + leap && DaysToMonth(y, 8) == 212 + leap && DaysToMonth(y, 9) == 243 + leap
      && DaysToMonth(y, 10) == 273 + leap && DaysToMonth(y, 11) == 304 + leap && DaysToMonth(y, 12) == 334 + leap
  {
    assert DaysToMonth(y, 3) == 59 + if IsLeap(y) then 1 else 0;
    assert DaysToMonth(y, 5) == DaysToMonth(y, 3) + 61;
    assert DaysToMonth(y, 7) == DaysToMonth(y, 5) + 61;
    assert DaysToMonth(y, 9) == DaysToMonth(y, 7) + 62;
    assert DaysToMonth(y, 11) == DaysToMonth(y, 9) + 61;
  }

  /** The first day of the month `mp` months after March, counted from the first of March. */
  function FromMarch(mp: int): int {
    (153 * mp + 2) / 5
  }

  lemma MonthOfDay(doy: int)
    requires 0 <= doy <= 365
    ensures var mp := (5 * doy + 2) / 153;
      0 <= mp <= 11 && FromMarch(mp) <= doy && (mp == 11 || doy < FromMarch(mp + 1))
  {
    var mp := (5 * doy + 2) / 153;
    assert 153 * mp <= 5 * doy + 2 < 153 * mp + 153;
  }

  /** The months of a year that starts in March begin on the days of the linear formula. */
  lemma FromMarchStarts(y: int, mp: int)
    requires 0 <= mp <= 11
    ensures mp < 10 ==> DaysToMonth(y, mp + 3) == FromMarch(mp) + 59 + if IsLeap(y) then 1 else 0
    ensures mp >= 10 ==> DaysToMonth(y + 1, mp - 9) == FromMarch(mp) - 306
    ensures var length := if mp < 10 then MonthLength(y, mp + 3) else MonthLength(y + 1, mp - 9);
      mp < 11 ==> FromMarch(mp + 1) == FromMarch(mp) + length
    ensures FromMarch(11) == 337
  {
    hide DaysToMonth, IsLeap;
    MonthStarts(y);
    MonthStarts(y + 1);
  }

  /** Day `doy` of the year that starts in March of year `y` is the date the formula gives. */
  lemma DayOfMarchYear(y: int, doy: int)
    requires 0 <= doy <= 365 && (doy == 365 ==> IsLeap(y + 1))
    ensures var mp := (5 * doy + 2) / 153;
      var m := if mp < 10 then mp + 3 else mp - 9;
      var date := Date(if m <= 2 then y + 1 else y, m, doy - (153 * mp + 2) / 5 + 1);
      && 0 <= mp <= 11
      && date.Valid()
      && DayNumber(date) == 365 * y + LeapDays(y) - 719_468 + doy
  {
    hide DaysToMonth, DaysToYear, LeapDays, IsLeap;
    var mp := (5 * doy + 2) / 153;
    MonthOfDay(doy);
    FromMarchStarts(y, mp);
    DaysToMarch(y);
  }

  // ---- main results ---------------------------------------------------

  lemma DivideMultiple(r: int, n: int, k: int)
    requires n == 4 || n == 100 || n == 400
    ensures (r + n * k) / n == r / n + k && (r + n * k) % n == r % n
  {
    var q, m := r / n, r % n;
    if n == 4 {
      assert r + 4 * k == 4 * (q + k) + m;
    } else if n == 100 {
      assert r + 100 * k == 100 * (q + k) + m;
    } else {
      assert r + 400 * k == 400 * (q + k) + m;
    }
  }

  /** Years repeat every era. */
  lemma EraYear(yoe: int, era: int)
    requires 0 <= yoe <= 399
    ensures LeapDays(yoe + 400 * era) == yoe / 4 - yoe / 100 + 97 * era
    ensures IsLeap(yoe + 400 * era + 1) == IsLeap(yoe + 1)
  {
    var y := yoe + 400 * era;
    DivideMultiple(yoe, 4, 100 * era);
    DivideMultiple(yoe, 100, 4 * era);
    DivideMultiple(yoe, 400, era);
    DivideMultiple(yoe + 1, 4, 100 * era);
    DivideMultiple(yoe + 1, 100, 4 * era);
    DivideMultiple(yoe + 1, 400, era);
  }

  /** The trick of line 164 is floor division. */
  lemma EraIsFloor(z: int)
    ensures Quotient(if z >= 0 then z else z - 146_096, 146_097) == z / 146_097
  {
    if z < 0 {
      var q, r := z / 146_097, z % 146_097;
      assert 146_096 - z == 146_097 * (-q) + (146_096 - r);
    }
  }

  /** The formula inverts the calendar on every day count. */
  lemma WideDateCorrect(days: int)
    ensures WideDate(days).Valid() && DayNumber(WideDate(days)) == days
  {
    hide DaysToYear, DaysToMonth, MonthLength, LeapDays, IsLeap, Quotient;
    var z := days + 719_468;
    var era := z / 146_097;
    var doe := z - era * 146_097;
    EraIsFloor(z);
    assert 0 <= doe <= 146_096;
    var yoe, doy := EraFormula(doe);
    QuotientFloors(yoe, 4);
    QuotientFloors(yoe, 100);
    EraYear(yoe, era);
    DayOfMarchYear(yoe + 400 * era, doy);
    QuotientFloors(5 * doy + 2, 153);
    QuotientFloors(153 * ((5 * doy + 2) / 153) + 2, 5);
  }

  /** The year and the day of the year that the formula finds in an era. */
  lemma EraFormula(doe: int) returns (yoe: int, doy: int)
    requires 0 <= doe <= 146_096
    ensures yoe == Quotient(doe - Quotient(doe, 1460) + Quotient(doe, 36524) - Quotient(doe, 146_096), 365)
    ensures doy == doe - (365 * yoe + yoe / 4 - yoe / 100)
    ensures 0 <= yoe <= 399 && 0 <= doy <= 365 && (doy == 365 ==> IsLeap(yoe + 1))
  {
    hide Quotient, IsLeap;
    QuotientFloors(doe, 1460);
    QuotientFloors(doe, 36524);
    QuotientFloors(doe, 146_096);
    var n := doe - doe / 1460 + doe / 36524 - doe / 146_096;
    DayOfEra(doe);
    QuotientFloors(n, 365);
    yoe := n / 365;
    doy := doe - (365 * yoe + yoe / 4 - yoe / 100);
  }

  lemma QuotientFloors(a: int, b: int)
    requires a >= 0 && b > 0
    ensures Quotient(a, b) == a / b
  {
  }

  // ---- narrowing ------------------------------------------------------

  /** The first and the last day whose year fits 32 bits. */
  const FIRST_DAY: int := -784_353_015_833
  const LAST_DAY: int := 784_351_576_776

  lemma {:induction false} YearsGrow(y: int, z: int)
    requires y <= z
    ensures DaysToYear(z) - DaysToYear(y) >= 365 * (z - y)
    decreases z - y
  {
    if y < z {
      YearsGrow(y, z - 1);
    }
  }

  lemma DateInYear(date: Date)
    requires date.Valid()
    ensures DaysToYear(date.year) <= DayNumber(date) < DaysToYear(date.year + 1)
  {
    MonthStarts(date.year);
  }

  /** Day numbers tell dates apart. */
  lemma DayNumberInjective(d: Date, e: Date)
    requires d.Valid() && e.Valid() && DayNumber(d) == DayNumber(e)
    ensures d == e
  {
    DateInYear(d);
    DateInYear(e);
    if d.year < e.year {
      YearsGrow(d.year + 1, e.year);
    } else if e.year < d.year {
      YearsGrow(e.year + 1, d.year);
    }
    MonthStarts(d.year);
  }

  lemma YearFits(date: Date)
    requires date.Valid()
    ensures -0x8000_0000 <= date.year <= 0x7FFF_FFFF <==> FIRST_DAY <= DayNumber(date) <= LAST_DAY
  {
    hide DaysToYear, DayNumber, Date.Valid;
    DaysToYearClosed(-0x8000_0000);
    DaysToYearClosed(0x8000_0000);
    assert DaysToYear(-0x8000_0000) == FIRST_DAY && DaysToYear(0x8000_0000) == LAST_DAY + 1;
    DateInYear(date);
    if date.year < -0x8000_0000 {
      YearsGrow(date.year + 1, -0x8000_0000);
    } else {
      YearsGrow(-0x8000_0000, date.year);
    }
    if date.year > 0x7FFF_FFFF {
      YearsGrow(0x8000_0000, date.year);
    } else {
      YearsGrow(date.year + 1, 0x8000_0000);
    }
  }

  /** Between the first and the last day, and only there, the answer is the calendar date of the day. */
  lemma DaysToYmdCorrect(days: int)
    ensures FIRST_DAY <= days <= LAST_DAY
      <==> DaysToYmd(days).Valid() && DayNumber(DaysToYmd(days)) == days
  {
    hide WideDate, DayNumber, Date.Valid;
    WideDateCorrect(days);
    YearFits(WideDate(days));
    if DaysToYmd(days).Valid() && DayNumber(DaysToYmd(days)) == days {
      DayNumberInjective(WideDate(days), DaysToYmd(days));
    }
  }

  /** Every date whose year fits 32 bits is the answer for its own day number. */
  lemma DaysToYmdOnto(date: Date)
    requires date.Valid() && -0x8000_0000 <= date.year <= 0x7FFF_FFFF
    ensures DaysToYmd(DayNumber(date)) == date
  {
    hide WideDate, Date.Valid;
    WideDateCorrect(DayNumber(date));
    DayNumberInjective(WideDate(DayNumber(date)), date);
  }

  // ---- text -----------------------------------------------------------

  const SECONDS_PER_DAY := 86_400

  /** The text of the date of a timestamp. */
  function FormatTs(ts: int): string {
    WideDateCorrect(Quotient(ts, SECONDS_PER_DAY));
    DateText(DaysToYmd(Quotient(ts, SECONDS_PER_DAY)))
  }

  /** Reads `year-mm-dd`. */
  function ReadDate(text: string): Option<Date> {
    var n := |text|;
    if n < 7 || text[n - 6] != '-' || text[n - 3] != '-' then None
    else
      match (ReadInt(text[..n - 6]), ReadInt(text[n - 5..n - 3]), ReadInt(text[n - 2..]))
      case (Some(y), Some(m), Some(d)) => Some(Date(y, m, d))
      case _ => None
  }

  lemma {:induction false} LeadingZero(s: string)
    requires AllDigits(s)
    ensures NatOf("0" + s) == NatOf(s)
    decreases |s|
  {
    var t := "0" + s;
    if s == "" {
      assert t[..0] == "";
    } else {
      assert t[..|t| - 1] == "0" + s[..|s| - 1];
      LeadingZero(s[..|s| - 1]);
    }
  }

  lemma {:induction false} ZerosRead(k: nat, s: string)
    requires AllDigits(s)
    ensures AllDigits(seq(k, _ => '0') + s) && NatOf(seq(k, _ => '0') + s) == NatOf(s)
    decreases k
  {
    var t := seq(k, _ => '0') + s;
    if k == 0 {
      assert t == s;
    } else {
      ZerosRead(k - 1, s);
      assert t == "0" + (seq(k - 1, _ => '0') + s);
      LeadingZero(seq(k - 1, _ => '0') + s);
    }
  }

  lemma PadReads(n: nat, w: nat)
    ensures Pad(n, w) != "" && AllDigits(Pad(n, w)) && NatOf(Pad(n, w)) == n
    ensures ReadInt(Pad(n, w)) == Some(n)
    ensures n < 100 && w == 2 ==> |Pad(n, w)| == 2
  {
    hide NatText, NatOf;
    var digits := NatText(n);
    ZerosRead(if |digits| < w then w - |digits| else 0, digits);
    NatTextReads(n);
    var text := Pad(n, w);
    assert IsDigit(text[0]);
    if n < 100 {
      FewDigits(n);
    }
  }

  lemma FewDigits(n: nat)
    requires n < 10_000
    ensures |NatText(n)| == if n < 10 then 1 else if n < 100 then 2 else if n < 1000 then 3 else 4
  {
    if n >= 10 {
      FewDigits(n / 10);
    }
  }

  /** A date with a year of four places is ten characters long; a longer year stands as it is. */
  lemma DateWidth(date: Date)
    requires date.Valid()
    ensures -999 <= date.year <= 9999 ==> |DateText(date)| == 10
    ensures date.year > 9999 ==> YearText(date.year) == NatText(date.year)
    ensures date.year < -999 ==> YearText(date.year) == "-" + NatText(-date.year)
  {
    var y := if date.year < 0 then -date.year else date.year;
    assert date.day <= 31;
    hide NatText, IsLeap, MonthLength, Pad;
    FewDigits(date.month);
    FewDigits(date.day);
    PadWidth(date.month, 2);
    PadWidth(date.day, 2);
    PadWidth(y, if date.year < 0 then 3 else 4);
    if -999 <= date.year <= 9999 {
      FewDigits(y);
    } else {
      ManyDigits(y);
    }
  }

  lemma PadWidth(n: nat, w: nat)
    ensures |Pad(n, w)| == if |NatText(n)| < w then w else |NatText(n)|
    ensures |NatText(n)| >= w ==> Pad(n, w) == NatText(n)
  {
  }

  lemma {:induction false} ManyDigits(n: nat)
    requires n >= 1000
    ensures |NatText(n)| >= 4
  {
    if n < 10_000 {
      FewDigits(n);
    } else {
      ManyDigits(n / 10);
    }
  }

  lemma YearTextReads(y: int)
    ensures YearText(y) != "" && ReadInt(YearText(y)) == Some(y)
  {
    hide Pad, NatOf;
    if y < 0 {
      PadReads(-y, 3);
      assert YearText(y)[1..] == Pad(-y, 3);
    } else {
      PadReads(y, 4);
    }
  }

  /** The printed date reads back. */
  lemma DateTextReads(date: Date)
    requires 0 <= date.month < 100 && 0 <= date.day < 100
    ensures ReadDate(DateText(date)) == Some(date)
  {
    hide ReadInt, Pad, YearText;
    var y, m, d := YearText(date.year), Pad(date.month, 2), Pad(date.day, 2);
    PadReads(date.month, 2);
    PadReads(date.day, 2);
    YearTextReads(date.year);
    var text := DateText(date);
    var n := |text|;
    assert text == y + "-" + m + "-" + d;
    assert n == |y| + 6 && text[n - 6] == '-' && text[n - 3] == '-';
    assert text[..n - 6] == y && text[n - 5..n - 3] == m && text[n - 2..] == d;
  }

  /**
   The printed text is the calendar date of the timestamp's day exactly when
   the year fits 32 bits and the timestamp is not negative or starts a day.
   */
  lemma FormatTsCorrect(ts: int)
    ensures ReadDate(FormatTs(ts)).Some?
    ensures var date := ReadDate(FormatTs(ts)).value;
      date.Valid() && DayNumber(date) == ts / 86_400
      <==> FIRST_DAY <= Quotient(ts, 86_400) <= LAST_DAY && (ts >= 0 || ts % 86_400 == 0)
  {
    hide WideDate, DayNumber, DateText, ReadDate;
    var days := Quotient(ts, SECONDS_PER_DAY);
    WideDateCorrect(days);
    DaysToYmdCorrect(days);
    DateTextReads(DaysToYmd(days));
    DaysTruncate(ts);
    if DaysToYmd(days).Valid() {
      YearFits(DaysToYmd(days));
    }
  }

  /** Truncation gives the day of the timestamp unless it is negative and inside a day. */
  lemma DaysTruncate(ts: int)
    ensures Quotient(ts, SECONDS_PER_DAY)
      == ts / 86_400 + if ts >= 0 || ts % 86_400 == 0 then 0 else 1
  {
    if ts < 0 {
      var q, r := ts / SECONDS_PER_DAY, ts % SECONDS_PER_DAY;
      assert ts == 86_400 * q + r;
    }
  }

  /** The last second of 1969 is shown as the first day of 1970. */
  lemma SecondBeforeEpoch()
    ensures FormatTs(-1) == "1970-01-01" && ReadDate(FormatTs(-1)) == Some(Date(1970, 1, 1))
    ensures DayNumber(Date(1969, 12, 31)) == -1 / 86_400 != DayNumber(Date(1970, 1, 1))
  {
    var first := Date(1970, 1, 1);
    assert DayNumber(first) == 0 && DayNumber(Date(1969, 12, 31)) == -1;
    FirstDayText();
    hide *;
    DaysToYmdOnto(first);
    DateTextReads(first);
  }

  lemma FirstDayText()
    ensures DateText(Date(1970, 1, 1)) == "1970-01-01"
  {
    assert NatText(1) == "1" && NatText(19) == "19" && NatText(197) == "197" && NatText(1970) == "1970";
    hide NatText;
    assert Pad(1, 2) == "01" && Pad(1970, 4) == "1970";
  }
}
