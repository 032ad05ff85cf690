/** The calendar arithmetic behind every recorded date (src/clock.rs), its copy in the
    git layer (src/git2_nquads.rs) and the truncating copy in src/kit.rs.

    Dafny's `/` and `%` are the source's `div_euclid` and `rem_euclid`; on the
    non-negative quantities inside an era they are also Rust's plain `/` and `%`. */
module Calendar {
  datatype Date = Date(year: int, month: int, day: int)

  const DAYS_PER_ERA := 146_097
  const EPOCH_SHIFT := 719_468

  predicate IsLeap(year: int) {
    year % 4 == 0 && (year % 100 != 0 || year % 400 == 0)
  }

  function DaysInMonth(year: int, month: int): int {
    if month == 2 then (if IsLeap(year) then 29 else 28)
    else if month in {4, 6, 9, 11} then 30
    else 31
  }

  /** A date of the proleptic Gregorian calendar, by the calendar's own rules. */
  predicate IsDate(d: Date) {
    1 <= d.month <= 12 && 1 <= d.day <= DaysInMonth(d.year, d.month)
  }

  /** The day after `d`. */
  function NextDate(d: Date): Date {
    if d.day < DaysInMonth(d.year, d.month) then d.(day := d.day + 1)
    else if d.month < 12 then Date(d.year, d.month + 1, 1)
    else Date(d.year + 1, 1, 1)
  }

  /** `civil_from_days`: split off the 400-year era, then place the day inside it. */
  function CivilFromDays(days: int): Date {
    var z := days + EPOCH_SHIFT;
    DateInEra(z / DAYS_PER_ERA, z % DAYS_PER_ERA)
  }

  function DateInEra(era: int, doe: int): Date {
    var yoe := YearOfEra(doe);
    var doy := doe - (365 * yoe + yoe / 4 - yoe / 100);
    var mp := (5 * doy + 2) / 153;
    var d := doy - (153 * mp + 2) / 5 + 1;
    var m := if mp < 10 then mp + 3 else mp - 9;
    Date(yoe + era * 400 + (if m <= 2 then 1 else 0), m, d)
  }

  function YearOfEra(doe: int): int {
    (doe - doe / 1_460 + doe / 36_524 - doe / 146_096) / 365
  }

  /** Days before year `yoe` of an era, years counted from the first of March. */
  function YearStart(yoe: int): int {
    365 * yoe + yoe / 4 - yoe / 100
  }

  /** Days before March-based month `mp`. */
  function MonthStart(mp: int): int {
    (153 * mp + 2) / 5
  }

  /** The inverse: the day number of a date. */
  function DaysFromCivil(d: Date): int {
    var y := if d.month <= 2 then d.year - 1 else d.year;
    var era := y / 400;
    var mp := if d.month > 2 then d.month - 3 else d.month + 9;
    era * DAYS_PER_ERA + YearStart(y % 400) + MonthStart(mp) + d.day - 1 - EPOCH_SHIFT
  }

  /** An era is 4 centuries, a century 25 four-year cycles, a cycle 4 years: the
      divisions of the algorithm recover the year from those digits. */
  lemma YearOfEraFromDigits(c: int, q: int, t: int, u: int)
    requires 0 <= c <= 3 && 0 <= q <= 24 && 0 <= t <= 3 && 0 <= u <= 365
    requires u == 365 ==> t == 3
    requires q == 24 && t == 3 && u == 365 ==> c == 3
    ensures YearOfEra(36_524 * c + 1_461 * q + 365 * t + u) == 100 * c + 4 * q + t
    ensures YearStart(100 * c + 4 * q + t) == 36_524 * c + 1_461 * q + 365 * t
  {
    var doe := 36_524 * c + 1_461 * q + 365 * t + u;
    var carry := if 24 * c + q + 365 * t + u >= 1_460 then 1 else 0;
    assert doe / 1_460 == 25 * c + q + carry;
    var full := if doe == 146_096 then 1 else 0;
    assert doe / 36_524 == c + full;
    assert doe / 146_096 == full;
    assert doe - doe / 1_460 + doe / 36_524 - doe / 146_096 == 365 * (100 * c + 4 * q + t) + (u - carry);
    assert 0 <= u - carry <= 364;
  }

  lemma YearOfEraBrackets(doe: int)
    requires 0 <= doe < DAYS_PER_ERA
    ensures 0 <= YearOfEra(doe) < 400
    ensures 0 <= doe - YearStart(YearOfEra(doe)) <= 365
    ensures doe - YearStart(YearOfEra(doe)) == 365 ==> IsLeap(YearOfEra(doe) + 1)
  {
    var c, q, t, u := EraDigits(doe);
    YearOfEraFromDigits(c, q, t, u);
    LeapDigits(c, q, t, u);
    hide YearOfEra, YearStart, IsLeap;
  }

  /** Centuries, four-year cycles, years and days: the digits of a day of an era. */
  lemma EraDigits(doe: int) returns (c: int, q: int, t: int, u: int)
    requires 0 <= doe < DAYS_PER_ERA
    ensures 0 <= c <= 3 && 0 <= q <= 24 && 0 <= t <= 3 && 0 <= u <= 365
    ensures u == 365 ==> t == 3
    ensures q == 24 && t == 3 && u == 365 ==> c == 3
    ensures doe == 36_524 * c + 1_461 * q + 365 * t + u
  {
    c := if doe / 36_524 > 3 then 3 else doe / 36_524;
    var r := doe - 36_524 * c;
    q := r / 1_461;
    var s := r - 1_461 * q;
    t := if s / 365 > 3 then 3 else s / 365;
    u := s - 365 * t;
  }

  lemma LeapDigits(c: int, q: int, t: int, u: int)
    requires 0 <= c <= 3 && 0 <= q <= 24 && 0 <= t <= 3
    requires u == 365 ==> t == 3
    requires q == 24 && t == 3 && u == 365 ==> c == 3
    ensures u == 365 ==> IsLeap(100 * c + 4 * q + t + 1)
  {
    if u == 365 && q < 24 {
      assert (100 * c + 4 * q + 4) % 100 == 4 * q + 4;
    }
  }

  lemma YearOfEraInverse(yoe: int, doy: int)
    requires 0 <= yoe < 400 && 0 <= doy <= 365
    requires doy == 365 ==> IsLeap(yoe + 1)
    ensures YearOfEra(YearStart(yoe) + doy) == yoe
    ensures 0 <= YearStart(yoe) + doy < DAYS_PER_ERA
  {
    var c, q, t := yoe / 100, yoe % 100 / 4, yoe % 4;
    assert yoe == 100 * c + 4 * q + t by {
      assert yoe % 100 % 4 == yoe % 4;
    }
    if doy == 365 {
      LastDayIsLeap(yoe);
    }
    YearOfEraFromDigits(c, q, t, doy);
  }

  lemma LastDayIsLeap(yoe: int)
    requires 0 <= yoe < 400 && IsLeap(yoe + 1)
    ensures yoe % 4 == 3
    ensures yoe % 100 / 4 == 24 && yoe % 4 == 3 ==> yoe / 100 == 3
  {
  }

  /** Adding whole eras changes neither leap years nor anything derived from them. */
  lemma LeapYearsRepeat(year: int, eras: int)
    ensures IsLeap(year + 400 * eras) == IsLeap(year)
  {
    Remainder4(year, year + 400 * eras, year / 4, 100 * eras);
    Remainder100(year, year + 400 * eras, year / 100, 4 * eras);
    Remainder400(year, year + 400 * eras, year / 400, eras);
  }

  lemma Remainder4(n: int, m: int, q: int, k: int)
    requires q == n / 4 && m == n + 4 * k
    ensures m % 4 == n % 4
  {
    assert 0 <= m - 4 * (q + k) < 4;
  }

  lemma Remainder100(n: int, m: int, q: int, k: int)
    requires q == n / 100 && m == n + 100 * k
    ensures m % 100 == n % 100
  {
    assert 0 <= m - 100 * (q + k) < 100;
  }

  lemma Remainder400(n: int, m: int, q: int, k: int)
    requires q == n / 400 && m == n + 400 * k
    ensures m % 400 == n % 400
  {
    assert 0 <= m - 400 * (q + k) < 400;
  }

  /** March-based months: every day of the year falls in its month, within the month's length. */
  lemma MonthOfDay(doy: int, mp: int)
    requires 0 <= doy <= 365 && mp == (5 * doy + 2) / 153
    ensures 0 <= mp <= 11 && 0 <= doy - MonthStart(mp) <= 30
    ensures mp in {1, 3, 6, 8} ==> doy - MonthStart(mp) <= 29
    ensures mp == 11 ==> doy - MonthStart(mp) == doy - 337
  {
  }

  lemma MonthOfDayInverse(mp: int, day: int)
    requires 0 <= mp <= 11 && 0 <= day <= 30
    requires mp in {1, 3, 6, 8} ==> day <= 29
    requires mp == 11 ==> day <= 28
    ensures 0 <= MonthStart(mp) + day <= 365
    ensures MonthStart(mp) + day == 365 ==> mp == 11 && day == 28
    ensures (5 * (MonthStart(mp) + day) + 2) / 153 == mp
  {
  }

  lemma EraOfYear(year: int, era: int, yoe: int)
    requires 0 <= yoe < 400 && year == era * 400 + yoe
    ensures year / 400 == era && year % 400 == yoe
  {
  }

  lemma EraOfDay(z: int, era: int, doe: int)
    requires 0 <= doe < DAYS_PER_ERA && z == era * DAYS_PER_ERA + doe
    ensures z / DAYS_PER_ERA == era && z % DAYS_PER_ERA == doe
  {
  }

  /** The March-based coordinates (year, day of year) behind a day number. */
  lemma MarchCoordinates(days: int) returns (y: int, doy: int, mp: int)
    ensures 0 <= doy <= 365 && (doy == 365 ==> IsLeap(y + 1))
    ensures mp == (5 * doy + 2) / 153
    ensures days == y / 400 * DAYS_PER_ERA + YearStart(y % 400) + doy - EPOCH_SHIFT
    ensures CivilFromDays(days) == FromMarch(y, mp, doy - MonthStart(mp))
  {
    var z := days + EPOCH_SHIFT;
    var era, doe := z / DAYS_PER_ERA, z % DAYS_PER_ERA;
    YearOfEraBrackets(doe);
    var yoe := YearOfEra(doe);
    y, doy := yoe + era * 400, doe - YearStart(yoe);
    mp := (5 * doy + 2) / 153;
    LeapYearsRepeat(yoe + 1, era);
    EraOfYear(y, era, yoe);
    assert z == era * DAYS_PER_ERA + doe;
  }

  /** The civil date `day` days into March-based month `mp` of March-based year `y`. */
  function FromMarch(y: int, mp: int, day: int): Date {
    var m := if mp < 10 then mp + 3 else mp - 9;
    Date(y + (if m <= 2 then 1 else 0), m, day + 1)
  }

  /** Every day number names a real date, and the inverse recovers the day number. */
  lemma CivilFromDaysIsDate(days: int)
    ensures IsDate(CivilFromDays(days))
    ensures DaysFromCivil(CivilFromDays(days)) == days
  {
    hide CivilFromDays;
    var y, doy, mp := MarchCoordinates(days);
    MonthOfDay(doy, mp);
  }

  /** Every real date is named by exactly one day number. */
  lemma DaysFromCivilInverse(d: Date)
    requires IsDate(d)
    ensures CivilFromDays(DaysFromCivil(d)) == d
  {
    hide CivilFromDays;
    var y := if d.month <= 2 then d.year - 1 else d.year;
    var mp := if d.month > 2 then d.month - 3 else d.month + 9;
    LeapYearsRepeat(y % 400 + 1, y / 400);
    assert y % 400 + 1 + 400 * (y / 400) == y + 1;
    MonthOfDayInverse(mp, d.day - 1);
    FromMarchCoordinates(y, mp, d.day - 1);
  }

  lemma FromMarchCoordinates(y: int, mp: int, day: int)
    requires 0 <= mp <= 11 && 0 <= day
    requires 0 <= MonthStart(mp) + day <= 365
    requires MonthStart(mp) + day == 365 ==> IsLeap(y % 400 + 1)
    requires (5 * (MonthStart(mp) + day) + 2) / 153 == mp
    ensures CivilFromDays(y / 400 * DAYS_PER_ERA + YearStart(y % 400) + MonthStart(mp) + day - EPOCH_SHIFT)
         == FromMarch(y, mp, day)
  {
    var era, yoe, doy := y / 400, y % 400, MonthStart(mp) + day;
    YearOfEraInverse(yoe, doy);
    var doe := YearStart(yoe) + doy;
    InEra(era, doe, yoe, mp, day);
    hide DateInEra, YearStart, MonthStart, YearOfEra, FromMarch;
    EraOfDay(era * DAYS_PER_ERA + doe, era, doe);
  }

  /** Inside an era the algorithm's coordinates are the March-based ones, once it has found the year. */
  lemma InEra(era: int, doe: int, yoe: int, mp: int, day: int)
    requires 0 <= mp <= 11 && (5 * (MonthStart(mp) + day) + 2) / 153 == mp
    ensures YearOfEra(doe) == yoe && doe == YearStart(yoe) + (MonthStart(mp) + day) ==>
      DateInEra(era, doe) == FromMarch(era * 400 + yoe, mp, day)
  {
    hide YearOfEra;
  }

  /** Consecutive day numbers are consecutive dates. */
  lemma CivilFromDaysSuccessor(days: int)
    ensures CivilFromDays(days + 1) == NextDate(CivilFromDays(days))
  {
    CivilFromDaysIsDate(days);
    var d := CivilFromDays(days);
    NextDateIsNextDay(d);
    DaysFromCivilInverse(NextDate(d));
  }

  lemma NextDateIsNextDay(d: Date)
    requires IsDate(d)
    ensures IsDate(NextDate(d))
    ensures DaysFromCivil(NextDate(d)) == DaysFromCivil(d) + 1
  {
    if d.day == DaysInMonth(d.year, d.month) {
      if d.month == 2 {
        MarchFirst(d.year);
      } else {
        MonthEnds(d);
      }
    }
  }

  lemma MonthEnds(d: Date)
    requires IsDate(d) && d.month != 2 && d.day == DaysInMonth(d.year, d.month)
    ensures IsDate(NextDate(d)) && DaysFromCivil(NextDate(d)) == DaysFromCivil(d) + 1
  {
    hide YearStart;
    if d.month == 12 {
      assert NextDate(d) == Date(d.year + 1, 1, 1);
    } else {
      assert NextDate(d) == Date(d.year, d.month + 1, 1);
    }
  }

  /** The step over the end of February, where the March-based year changes. */
  lemma MarchFirst(year: int)
    ensures DaysFromCivil(Date(year, 3, 1)) == DaysFromCivil(Date(year, 2, DaysInMonth(year, 2))) + 1
  {
    var era, yoe := (year - 1) / 400, (year - 1) % 400;
    assert year == 400 * era + yoe + 1;
    LeapYearsRepeat(yoe + 1, era);
    if yoe == 399 {
      EraOfYear(year, era + 1, 0);
    } else {
      EraOfYear(year, era, yoe + 1);
      YearLength(yoe);
    }
  }

  lemma YearLength(yoe: int)
    requires 0 <= yoe < 399
    ensures YearStart(yoe + 1) == YearStart(yoe) + (if IsLeap(yoe + 1) then 366 else 365)
  {
    var n := yoe + 1;
    assert n / 4 == yoe / 4 + (if n % 4 == 0 then 1 else 0);
    assert n / 100 == yoe / 100 + (if n % 100 == 0 then 1 else 0);
    assert n % 100 == 0 ==> n % 4 == 0;
    assert n % 400 != 0;
  }
}

/** Timestamps as text: `format_rfc3339` and `today_ymd` (src/clock.rs), `git2_time_to_datetime`
    (src/git2_nquads.rs) and the truncating date of src/kit.rs, with the machine integers they use. */
module Timestamps {
  import opened Calendar
  import opened Wrappers

  const I32_MIN := -0x8000_0000
  type I32 = n: int | -0x8000_0000 <= n < 0x8000_0000
  type I64 = n: int | -0x8000_0000_0000_0000 <= n < 0x8000_0000_0000_0000

  /** `seconds + offset_minutes * 60` stays inside an i64; otherwise the source's addition overflows. */
  predicate NoOverflow(seconds: I64, offset: I32) {
    -0x8000_0000_0000_0000 <= seconds + offset * 60 < 0x8000_0000_0000_0000
  }

  /** Rust's truncating division and remainder, which differ from `/` and `%` on negatives. */
  function TruncDiv(a: int, b: int): int
    requires b > 0
  {
    if a >= 0 then a / b else -((-a) / b)
  }

  function TruncRem(a: int, b: int): int
    requires b > 0
  {
    a - b * TruncDiv(a, b)
  }

  /** i32 negation wraps at i32::MIN. */
  function WrappingNeg(n: I32): I32 {
    if n == I32_MIN then I32_MIN else -n
  }

  function Digit(n: int): char
    requires 0 <= n <= 9
  {
    '0' + n as char
  }

  function Digits(n: nat): (s: string)
    ensures |s| >= 1 && forall c <- s :: '0' <= c <= '9'
  {
    if n < 10 then [Digit(n)] else Digits(n / 10) + [Digit(n % 10)]
  }

  function Zeros(n: nat): (s: string)
    ensures |s| == n && forall c <- s :: c == '0'
  {
    if n == 0 then "" else "0" + Zeros(n - 1)
  }

  function PadLeft(s: string, width: nat): string {
    if |s| < width then Zeros(width - |s|) + s else s
  }

  /** `{:0width}`: zeros go between the sign and the digits. */
  function Padded(n: int, width: nat): string {
    if n >= 0 then PadLeft(Digits(n), width)
    else "-" + PadLeft(Digits(-n), if width > 0 then width - 1 else 0)
  }

  function DateText(d: Date): string {
    Padded(d.year, 4) + "-" + Padded(d.month, 2) + "-" + Padded(d.day, 2)
  }

  function TimeText(secs: int): string {
    "T" + Padded(secs / 3600, 2) + ":" + Padded(secs % 3600 / 60, 2) + ":" + Padded(secs % 60, 2)
  }

  /** `today_ymd`, given the reading of the clock. */
  function TodayYmd(seconds: I64, offset: I32): string
    requires NoOverflow(seconds, offset)
  {
    DateText(CivilFromDays((seconds + offset * 60) / 86_400))
  }

  function FormatRfc3339(seconds: I64, offset: I32): string
    requires NoOverflow(seconds, offset)
  {
    var local := seconds + offset * 60;
    DateText(CivilFromDays(local / 86_400)) + TimeText(local % 86_400) + OffsetText(offset)
  }

  /** The magnitude is `unsigned_abs`, which has no wrapping case. */
  function OffsetText(offset: I32): string {
    var off: int := if offset < 0 then -(offset as int) else offset;
    [if offset < 0 then '-' else '+'] + Padded(off / 60, 2) + ":" + Padded(off % 60, 2)
  }

  /** `git2_time_to_datetime`: the same shape written another way. */
  function GitDateTime(seconds: I64, offset: I32): string
    requires NoOverflow(seconds, offset)
  {
    var local := seconds + offset * 60;
    DateText(CivilFromDays(local / 86_400)) + GitTimeText(local % 86_400) + GitOffsetText(offset)
  }

  function GitTimeText(secs: int): string {
    var rem := secs % 3600;
    "T" + Padded(secs / 3600, 2) + ":" + Padded(rem / 60, 2) + ":" + Padded(rem % 60, 2)
  }

  /** The magnitude here is an i32 negation. */
  function GitOffsetText(offset: I32): string {
    var off := if offset < 0 then WrappingNeg(offset) else offset;
    [if offset < 0 then '-' else '+'] + Padded(TruncDiv(off, 60), 2) + ":" + Padded(TruncRem(off, 60), 2)
  }

  /** The date of src/kit.rs: the era by truncating division, shifted down for negative days. */
  function KitDate(days: int): Date {
    var z := days + EPOCH_SHIFT;
    var era := TruncDiv(if z >= 0 then z else z - 146_096, DAYS_PER_ERA);
    var doe := z - era * DAYS_PER_ERA;
    DateInEra(era, doe)
  }

  lemma KitDateAgrees(days: int)
    ensures KitDate(days) == CivilFromDays(days)
  {
    var z := days + EPOCH_SHIFT;
    if z < 0 {
      var era := z / DAYS_PER_ERA;
      assert (146_096 - z) / DAYS_PER_ERA == -era;
    }
  }

  // ----- where the arithmetic leaves an i64 -----

  predicate FitsI64(n: int) {
    -0x8000_0000_0000_0000 <= n < 0x8000_0000_0000_0000
  }

  /** What `civil_from_days` computes from the day of the era, in order. */
  function InEraSteps(doe: int): seq<int> {
    var yoe := YearOfEra(doe);
    var doy := doe - YearStart(yoe);
    var mp := (5 * doy + 2) / 153;
    [doe, doe / 1_460, doe - doe / 1_460, doe / 36_524, doe - doe / 1_460 + doe / 36_524, doe / 146_096,
     doe - doe / 1_460 + doe / 36_524 - doe / 146_096, yoe, 365 * yoe, yoe / 4,
      365 * yoe + yoe / 4, yoe / 100, YearStart(yoe),
     doy, 5 * doy, 5 * doy + 2, mp, 153 * mp, 153 * mp + 2, MonthStart(mp), doy - MonthStart(mp),
      doy - MonthStart(mp) + 1,
     mp + 3, mp - 9]
  }

  /** Every value it computes: the shifted day, the era, what lies inside the era, and the year. */
  function Steps(days: int): seq<int> {
    var z := days + EPOCH_SHIFT;
    var era, yoe := z / DAYS_PER_ERA, YearOfEra(z % DAYS_PER_ERA);
    [z, era] + InEraSteps(z % DAYS_PER_ERA) + [era * 400, yoe + era * 400, CivilFromDays(days).year]
  }

  lemma InEraSmall(doe: int)
    requires 0 <= doe < DAYS_PER_ERA
    ensures forall n <- InEraSteps(doe) :: -1_000_000 <= n <= 1_000_000
  {
    YearOfEraBrackets(doe);
    var yoe := YearOfEra(doe);
    var doy := doe - YearStart(yoe);
    assert 0 <= doy <= 365 && 0 <= yoe < 400;
    InYearSmall(doe, yoe, doy, (5 * doy + 2) / 153);
  }

  lemma InYearSmall(doe: int, yoe: int, doy: int, mp: int)
    requires 0 <= doe < DAYS_PER_ERA && yoe == YearOfEra(doe) && doy == doe - YearStart(yoe)
      && mp == (5 * doy + 2) / 153
    requires 0 <= doy <= 365 && 0 <= yoe < 400
    ensures forall n <- InEraSteps(doe) :: -1_000_000 <= n <= 1_000_000
  {
  }

  lemma YearNear(days: int)
    ensures var z := days + EPOCH_SHIFT;
      var y := YearOfEra(z % DAYS_PER_ERA) + z / DAYS_PER_ERA * 400;
      0 <= YearOfEra(z % DAYS_PER_ERA) < 400 && y <= CivilFromDays(days).year <= y + 1
  {
    YearOfEraBrackets((days + EPOCH_SHIFT) % DAYS_PER_ERA);
  }

  lemma EraSmall(z: int)
    requires FitsI64(z)
    ensures -70_000_000_000_000 <= z / DAYS_PER_ERA <= 70_000_000_000_000
  {
  }

  /** The algorithm is not valid for every day an i64 holds: it stays inside an i64 exactly for the days up to
      719468 below the greatest. */
  lemma StepsFitIff(days: I64)
    ensures (forall n <- Steps(days) :: FitsI64(n)) <==> days < 0x8000_0000_0000_0000 - EPOCH_SHIFT
  {
    hide InEraSteps, YearOfEra, CivilFromDays;
    var z := days + EPOCH_SHIFT;
    assert Steps(days)[0] == z && z in Steps(days);
    if days < 0x8000_0000_0000_0000 - EPOCH_SHIFT {
      var era, doe := z / DAYS_PER_ERA, z % DAYS_PER_ERA;
      var yoe, year := YearOfEra(doe), CivilFromDays(days).year;
      InEraSmall(doe);
      EraSmall(z);
      YearNear(days);
      assert FitsI64(z) && FitsI64(era) && FitsI64(era * 400) && FitsI64(yoe + era * 400) && FitsI64(year);
      forall n | n in Steps(days)
        ensures FitsI64(n)
      {
        assert n in [z, era] || n in InEraSteps(doe) || n in [era * 400, yoe + era * 400, year];
      }
    }
  }

  /** An instant in a zone that does not overflow names a day that does not overflow either. */
  lemma LocalDayFits(seconds: I64, offset: I32)
    requires NoOverflow(seconds, offset)
    ensures FitsI64((seconds + offset * 60) / 86_400)
    ensures forall n <- Steps((seconds + offset * 60) / 86_400) :: FitsI64(n)
  {
    hide Steps;
    StepsFitIff((seconds + offset * 60) / 86_400);
  }

  /** The addition of the zone overflows exactly for the instants within the zone's own seconds of an end of the
      i64 range, on the side the zone goes to. */
  lemma OverflowsIff(seconds: I64, offset: I32)
    ensures !NoOverflow(seconds, offset) <==>
      (offset > 0 && seconds >= 0x8000_0000_0000_0000 - offset * 60)
      || (offset < 0 && seconds < -0x8000_0000_0000_0000 - offset * 60)
  {
  }

  /** The two formatters write the same text for exactly the offsets other than i32::MIN. */
  lemma GitDateTimeAgrees(seconds: I64, offset: I32)
    requires NoOverflow(seconds, offset)
    ensures GitDateTime(seconds, offset) == FormatRfc3339(seconds, offset) <==> offset != I32_MIN
  {
    hide CivilFromDays, DateText, TimeText, GitTimeText, OffsetText, GitOffsetText;
    var local := seconds + offset * 60;
    GitTimeTextAgrees(local % 86_400);
    var head := DateText(CivilFromDays(local / 86_400)) + TimeText(local % 86_400);
    CancelHead(head, OffsetText(offset), GitOffsetText(offset));
    GitOffsetTextAgrees(offset);
  }

  lemma GitTimeTextAgrees(secs: int)
    requires 0 <= secs < 86_400
    ensures GitTimeText(secs) == TimeText(secs)
  {
    assert secs % 3600 % 60 == secs % 60;
  }

  lemma GitOffsetTextAgrees(offset: I32)
    ensures GitOffsetText(offset) == OffsetText(offset) <==> offset != I32_MIN
  {
    if offset == I32_MIN {
      OffsetsDifferAtMin();
    } else if offset < 0 {
      assert TruncRem(-offset, 60) == -offset % 60;
    }
  }

  lemma CancelHead(head: string, a: string, b: string)
    ensures head + a == head + b <==> a == b
  {
    assert (head + a)[|head|..] == a && (head + b)[|head|..] == b;
  }

  lemma OffsetsDifferAtMin()
    ensures |OffsetText(I32_MIN)| > 1 && |GitOffsetText(I32_MIN)| > 1
    ensures OffsetText(I32_MIN)[1] != '-' && GitOffsetText(I32_MIN)[1] == '-'
  {
    assert WrappingNeg(I32_MIN) == I32_MIN;
    assert TruncDiv(I32_MIN, 60) == -35_791_394;
    assert Padded(-35_791_394, 2)[0] == '-';
    assert Padded(35_791_394, 2)[0] == PadLeft(Digits(35_791_394), 2)[0];
  }

  predicate IsDigit(c: char) {
    '0' <= c <= '9'
  }

  /** The fixed-width `date-time` shape of section 5.6 of RFC 3339, with a numeric offset. */
  predicate IsDateTimeShape(s: string) {
    |s| == 25
    && (forall i :: 0 <= i < 25 && i !in {4, 7, 10, 13, 16, 19, 22} ==> IsDigit(s[i]))
    && s[4] == '-' && s[7] == '-' && s[10] == 'T' && s[13] == ':' && s[16] == ':'
    && s[19] in {'+', '-'} && s[22] == ':'
  }

  function TwoDigits(s: string, i: nat): int
    requires i + 1 < |s|
  {
    (s[i] as int - '0' as int) * 10 + (s[i + 1] as int - '0' as int)
  }

  /** A reader of such a timestamp, written from the RFC: the instant and the offset in minutes. */
  function ReadTimestamp(s: string): Option<(int, int)> {
    if !IsDateTimeShape(s) then None else
    var date := Date(TwoDigits(s, 0) * 100 + TwoDigits(s, 2), TwoDigits(s, 5), TwoDigits(s, 8));
    var hh, mm, ss := TwoDigits(s, 11), TwoDigits(s, 14), TwoDigits(s, 17);
    var magnitude := TwoDigits(s, 20) * 60 + TwoDigits(s, 23);
    var offset := if s[19] == '-' then -magnitude else magnitude;
    if IsDate(date) && hh < 24 && mm < 60 && ss < 60 && TwoDigits(s, 23) < 60
    then Some((DaysFromCivil(date) * 86_400 + hh * 3600 + mm * 60 + ss - offset * 60, offset))
    else None
  }

  lemma PadTwo(n: nat)
    ensures |Padded(n, 2)| >= 2 && (|Padded(n, 2)| == 2 <==> n < 100)
    ensures n < 100 ==> IsDigit(Padded(n, 2)[0]) && IsDigit(Padded(n, 2)[1]) && TwoDigits(Padded(n, 2), 0) == n
  {
    if n >= 100 {
      assert |Digits(n / 10)| >= 2;
    } else if n < 10 {
      assert Zeros(1) == "0" + Zeros(0) == "0";
      assert Padded(n, 2) == "0" + [Digit(n)];
    } else {
      assert Digits(n) == Digits(n / 10) + [Digit(n % 10)] == [Digit(n / 10)] + [Digit(n % 10)];
    }
  }

  lemma PadFour(n: nat)
    ensures |Padded(n, 4)| >= 4 && (|Padded(n, 4)| == 4 <==> n < 10_000)
    ensures n < 10_000 ==> var s := Padded(n, 4);
      (forall i :: 0 <= i < 4 ==> IsDigit(s[i])) && TwoDigits(s, 0) * 100 + TwoDigits(s, 2) == n
  {
    DigitCount(n);
    if n < 100 {
      PadBelowHundred(n);
    } else if n < 1000 {
      PadHundreds(n);
    } else if n < 10_000 {
      PadThousands(n);
    }
  }

  predicate ReadsFour(n: nat) {
    var s := Padded(n, 4);
    |s| == 4 && (forall i :: 0 <= i < 4 ==> IsDigit(s[i])) && TwoDigits(s, 0) * 100 + TwoDigits(s, 2) == n
  }

  lemma PadBelowHundred(n: nat)
    requires n < 100
    ensures ReadsFour(n)
  {
    if n < 10 {
      assert Zeros(3) == "000";
      assert Padded(n, 4) == "000" + [Digit(n)];
    } else {
      assert Digits(n) == Digits(n / 10) + [Digit(n % 10)] == [Digit(n / 10)] + [Digit(n % 10)];
      assert Zeros(2) == "00";
    }
  }

  lemma PadHundreds(n: nat)
    requires 100 <= n < 1000
    ensures ReadsFour(n)
  {
    assert Digits(n) == Digits(n / 10) + [Digit(n % 10)];
    assert Digits(n / 10) == Digits(n / 100) + [Digit(n / 10 % 10)];
    assert Digits(n / 100) == [Digit(n / 100)];
    hide Digits;
    assert Zeros(1) == "0";
  }

  lemma PadThousands(n: nat)
    requires 1000 <= n < 10_000
    ensures ReadsFour(n)
  {
    assert Digits(n) == Digits(n / 10) + [Digit(n % 10)];
    assert Digits(n / 10) == Digits(n / 100) + [Digit(n / 10 % 10)];
    assert Digits(n / 100) == Digits(n / 1000) + [Digit(n / 100 % 10)];
    assert Digits(n / 1000) == [Digit(n / 1000)];
    hide Digits;
  }

  lemma {:induction false} DigitCount(n: nat)
    ensures |Digits(n)| <= 4 <==> n < 10_000
    ensures |Digits(n)| <= 3 <==> n < 1000
    ensures |Digits(n)| <= 2 <==> n < 100
    ensures |Digits(n)| <= 1 <==> n < 10
  {
    if n >= 10 {
      assert |Digits(n)| == |Digits(n / 10)| + 1;
      DigitCount(n / 10);
    }
  }

  /** `a` is a ten-character date that reads back as `d`. */
  predicate DatePiece(a: string, d: Date) {
    |a| == 10 && a[4] == '-' && a[7] == '-'
    && (forall i :: 0 <= i < 10 && i !in {4, 7} ==> IsDigit(a[i]))
    && d == Date(TwoDigits(a, 0) * 100 + TwoDigits(a, 2), TwoDigits(a, 5), TwoDigits(a, 8))
  }

  predicate TimePiece(b: string, secs: int) {
    |b| == 9 && b[0] == 'T' && b[3] == ':' && b[6] == ':'
    && (forall i :: 0 <= i < 9 && i !in {0, 3, 6} ==> IsDigit(b[i]))
    && TwoDigits(b, 1) < 24 && TwoDigits(b, 4) < 60 && TwoDigits(b, 7) < 60
    && secs == TwoDigits(b, 1) * 3600 + TwoDigits(b, 4) * 60 + TwoDigits(b, 7)
  }

  predicate OffsetPiece(c: string, offset: int) {
    |c| == 6 && c[0] in {'+', '-'} && c[3] == ':'
    && (forall i :: 0 <= i < 6 && i !in {0, 3} ==> IsDigit(c[i]))
    && TwoDigits(c, 4) < 60
    && offset == (if c[0] == '-' then -1 else 1) * (TwoDigits(c, 1) * 60 + TwoDigits(c, 4))
  }

  /** Four-digit years are exactly the ones whose date text is ten characters opening with a digit. */
  lemma DateTextShape(d: Date)
    requires IsDate(d)
    ensures 0 <= d.year <= 9999 ==> DatePiece(DateText(d), d)
    ensures !(0 <= d.year <= 9999) ==> |DateText(d)| > 10 || (|DateText(d)| == 10 && DateText(d)[0] == '-')
  {
    PadTwo(d.month);
    PadTwo(d.day);
    if d.year >= 0 {
      PadFour(d.year);
    } else {
      NegativeYearText(d.year);
    }
    JoinedDate(Padded(d.year, 4), Padded(d.month, 2), Padded(d.day, 2), d);
  }

  lemma JoinedDate(y: string, m: string, dd: string, d: Date)
    requires |y| >= 4 && |m| == 2 && |dd| == 2
    requires forall i :: 0 <= i < 2 ==> IsDigit(m[i]) && IsDigit(dd[i])
    requires TwoDigits(m, 0) == d.month && TwoDigits(dd, 0) == d.day
    ensures |y + "-" + m + "-" + dd| == |y| + 6 && (y + "-" + m + "-" + dd)[0] == y[0]
    ensures |y| == 4 && (forall i :: 0 <= i < 4 ==> IsDigit(y[i])) && TwoDigits(y, 0) * 100 + TwoDigits(y, 2) == d.year
      ==> DatePiece(y + "-" + m + "-" + dd, d)
  {
    var a := y + "-" + m + "-" + dd;
    if |y| == 4 {
      assert TwoDigits(a, 0) == TwoDigits(y, 0) && TwoDigits(a, 2) == TwoDigits(y, 2);
      assert TwoDigits(a, 5) == TwoDigits(m, 0) && TwoDigits(a, 8) == TwoDigits(dd, 0);
    }
  }

  lemma NegativeYearText(year: int)
    requires year < 0
    ensures |Padded(year, 4)| >= 4 && Padded(year, 4)[0] == '-'
  {
  }

  lemma TimeTextShape(secs: int)
    requires 0 <= secs < 86_400
    ensures TimePiece(TimeText(secs), secs)
  {
    PadTwo(secs / 3600);
    PadTwo(secs % 3600 / 60);
    PadTwo(secs % 60);
    assert secs == secs / 3600 * 3600 + secs % 3600 / 60 * 60 + secs % 60;
    JoinedTime(Padded(secs / 3600, 2), Padded(secs % 3600 / 60, 2), Padded(secs % 60, 2));
  }

  lemma JoinedTime(h: string, m: string, s: string)
    requires |h| == |m| == |s| == 2
    requires forall i :: 0 <= i < 2 ==> IsDigit(h[i]) && IsDigit(m[i]) && IsDigit(s[i])
    requires TwoDigits(h, 0) < 24 && TwoDigits(m, 0) < 60 && TwoDigits(s, 0) < 60
    ensures TimePiece("T" + h + ":" + m + ":" + s, TwoDigits(h, 0) * 3600 + TwoDigits(m, 0) * 60 + TwoDigits(s, 0))
  {
    var b := "T" + h + ":" + m + ":" + s;
    assert TwoDigits(b, 1) == TwoDigits(h, 0) && TwoDigits(b, 4) == TwoDigits(m, 0)
      && TwoDigits(b, 7) == TwoDigits(s, 0);
  }

  lemma OffsetTextShape(offset: I32)
    ensures -6000 < offset < 6000 ==> OffsetPiece(OffsetText(offset), offset)
    ensures !(-6000 < offset < 6000) ==> |OffsetText(offset)| > 6
  {
    var off: nat := if offset < 0 then -(offset as int) else offset;
    PadTwo(off / 60);
    PadTwo(off % 60);
  }

  /** Where each piece of a 10 + 9 + 6 character text sits. */
  lemma Spliced(a: string, b: string, c: string)
    requires |a| == 10 && |b| == 9 && |c| == 6
    ensures |a + b + c| == 25
    ensures forall i :: 0 <= i < 10 ==> (a + b + c)[i] == a[i]
    ensures forall i :: 10 <= i < 19 ==> (a + b + c)[i] == b[i - 10]
    ensures forall i :: 19 <= i < 25 ==> (a + b + c)[i] == c[i - 19]
  {
  }

  lemma SplicedReads(a: string, b: string, c: string, d: Date, secs: int, offset: int)
    requires IsDate(d) && DatePiece(a, d) && TimePiece(b, secs) && OffsetPiece(c, offset)
    ensures IsDateTimeShape(a + b + c)
    ensures ReadTimestamp(a + b + c) == Some((DaysFromCivil(d) * 86_400 + secs - offset * 60, offset))
  {
    Spliced(a, b, c);
    var s := a + b + c;
    assert TwoDigits(s, 0) == TwoDigits(a, 0) && TwoDigits(s, 2) == TwoDigits(a, 2);
    assert TwoDigits(s, 5) == TwoDigits(a, 5) && TwoDigits(s, 8) == TwoDigits(a, 8);
    assert TwoDigits(s, 11) == TwoDigits(b, 1) && TwoDigits(s, 14) == TwoDigits(b, 4);
    assert TwoDigits(s, 17) == TwoDigits(b, 7);
    assert TwoDigits(s, 20) == TwoDigits(c, 1) && TwoDigits(s, 23) == TwoDigits(c, 4);
  }

  lemma SplicedMisshape(a: string, b: string, c: string)
    requires |a| >= 10 && |b| == 9 && |c| >= 6
    requires |a| > 10 || a[0] == '-' || |c| > 6
    ensures !IsDateTimeShape(a + b + c)
  {
    assert (a + b + c)[0] == a[0];
  }

  /** The formatter's text has the RFC 3339 shape for exactly the four-digit years and
      the offsets under 100 hours; then reading it gives back the instant and the offset. */
  lemma FormattedReadsBack(seconds: I64, offset: I32)
    requires NoOverflow(seconds, offset)
    ensures IsDateTimeShape(FormatRfc3339(seconds, offset)) <==>
      0 <= CivilFromDays((seconds + offset * 60) / 86_400).year <= 9999 && -6000 < offset < 6000
    ensures IsDateTimeShape(FormatRfc3339(seconds, offset)) ==>
      ReadTimestamp(FormatRfc3339(seconds, offset)) == Some((seconds, offset))
  {
    hide CivilFromDays, DateText, TimeText, OffsetText, ReadTimestamp, IsDateTimeShape, IsDate;
    var local := seconds + offset * 60;
    CivilFromDaysIsDate(local / 86_400);
    PiecesReadBack(CivilFromDays(local / 86_400), local % 86_400, offset);
    assert local / 86_400 * 86_400 + local % 86_400 - offset * 60 == seconds;
  }

  lemma PiecesReadBack(d: Date, secs: int, offset: I32)
    requires IsDate(d) && 0 <= secs < 86_400
    ensures var s := DateText(d) + TimeText(secs) + OffsetText(offset);
      if 0 <= d.year <= 9999 && -6000 < offset < 6000
      then IsDateTimeShape(s) && ReadTimestamp(s) == Some((DaysFromCivil(d) * 86_400 + secs - offset * 60, offset))
      else !IsDateTimeShape(s)
  {
    DateTextShape(d);
    TimeTextShape(secs);
    OffsetTextShape(offset);
    if 0 <= d.year <= 9999 && -6000 < offset < 6000 {
      SplicedReads(DateText(d), TimeText(secs), OffsetText(offset), d, secs, offset);
    } else {
      SplicedMisshape(DateText(d), TimeText(secs), OffsetText(offset));
    }
  }

  /** The date alone is the part of the timestamp before its `T`. */
  lemma TodayIsDatePart(seconds: I64, offset: I32)
    requires NoOverflow(seconds, offset)
    ensures TodayYmd(seconds, offset) < FormatRfc3339(seconds, offset)
    ensures FormatRfc3339(seconds, offset)[|TodayYmd(seconds, offset)|] == 'T'
  {
  }
}
