/** `days_to_ymd` is the proleptic Gregorian calendar. */
module Calendar {
  datatype Date = Date(year: nat, month: nat, day: nat)

  const U64_LIMIT := 0x1_0000_0000_0000_0000

  /** The source's arithmetic on unsigned 64-bit numbers: every difference must be a natural number. */
  function DaysToYmd(n: nat): Date
    requires n + 719468 < U64_LIMIT
  {
    var days := n + 719468;
    InEra(days / 146097, days % 146097)
  }

  /** The date of day `doe` of an era of 400 years. */
  function InEra(era: nat, doe: nat): Date
    requires doe < 146097
  {
    YearBounds(doe);
    var yoe: nat := YearOfEra(doe);
    var y := yoe + era * 400;
    var doy: nat := doe - DaysBefore(yoe);
    FromMarch(y, doy)
  }

  function YearOfEra(doe: nat): nat
    requires doe < 146097
  {
    var fewer: nat := doe - doe / 1460;
    var adjusted: nat := fewer + doe / 36524 - doe / 146096;
    adjusted / 365
  }

  /** Days before the year `y` of an era; years begin in March. */
  function DaysBefore(y: nat): nat {
    365 * y + y / 4 - y / 100
  }

  /** The date of day `doy` of the year that begins in March of year `y`. */
  function FromMarch(y: nat, doy: nat): Date
    requires doy <= 365
  {
    var mp := (5 * doy + 2) / 153;
    var d: nat := doy - (153 * mp + 2) / 5 + 1;
    var m: nat := if mp < 10 then mp + 3 else mp - 9;
    Date(if m <= 2 then y + 1 else y, m, d)
  }

  // ---------------------------------------------------------------------------------------------
  // The calendar, independently
  // ---------------------------------------------------------------------------------------------

  predicate Leap(y: nat) { y % 4 == 0 && (y % 100 != 0 || y % 400 == 0) }

  function DaysInMonth(y: nat, m: nat): nat {
    if m == 2 then (if Leap(y) then 29 else 28)
    else if m in {4, 6, 9, 11} then 30
    else 31
  }

  predicate IsDate(d: Date) {
    1 <= d.month <= 12 && 1 <= d.day <= DaysInMonth(d.year, d.month)
  }

  function NextDay(d: Date): Date {
    if d.day < DaysInMonth(d.year, d.month) then d.(day := d.day + 1)
    else if d.month < 12 then Date(d.year, d.month + 1, 1)
    else Date(d.year + 1, 1, 1)
  }

  /** Days from 1970-01-01 to the first of January of `y`, counted year by year. */
  function DaysToYear(y: nat): nat {
    if y <= 1970 then 0 else DaysToYear(y - 1) + if Leap(y - 1) then 366 else 365
  }

  /** Days from the first of January to the first of month `m`, counted month by month. */
  function DaysToMonth(y: nat, m: nat): nat {
    if m <= 1 then 0 else DaysToMonth(y, m - 1) + DaysInMonth(y, m - 1)
  }

  function DayNumber(d: Date): nat
    requires IsDate(d)
  {
    DaysToYear(d.year) + DaysToMonth(d.year, d.month) + d.day - 1
  }

  // ---------------------------------------------------------------------------------------------
  // The year of the era
  // ---------------------------------------------------------------------------------------------

  /** Centuries, four-year cycles, years and days that make up a day of the era. */
  lemma EraParts(doe: nat) returns (c: nat, q: nat, t: nat, u: nat)
    requires doe < 146097
    ensures doe == 36524 * c + 1461 * q + 365 * t + u
    ensures c <= 3 && q <= 24 && t <= 3 && u <= 365
    ensures u == 365 ==> t == 3 && (q < 24 || c == 3)
  {
    c := if doe / 36524 == 4 then 3 else doe / 36524;
    var r := doe - 36524 * c;
    q := r / 1461;
    var s := r - 1461 * q;
    t := if s / 365 == 4 then 3 else s / 365;
    u := s - 365 * t;
  }

  lemma YearFromParts(doe: nat, c: nat, q: nat, t: nat, u: nat)
    requires doe < 146097 && doe == 36524 * c + 1461 * q + 365 * t + u
    requires c <= 3 && q <= 24 && t <= 3 && u <= 365
    requires u == 365 ==> t == 3 && (q < 24 || c == 3)
    ensures YearOfEra(doe) == 100 * c + 4 * q + t
  {
    var e := 24 * c + q + 365 * t + u;
    assert doe == 1460 * (25 * c + q) + e;
    assert doe / 1460 == 25 * c + q + if e >= 1460 then 1 else 0;
    assert doe / 36524 == if doe == 146096 then 4 else c;
  }

  lemma PartsBefore(c: nat, q: nat, t: nat)
    requires c <= 3 && q <= 24 && t <= 3
    ensures DaysBefore(100 * c + 4 * q + t) == 36524 * c + 1461 * q + 365 * t
  {
    var y := 100 * c + 4 * q + t;
    assert y / 4 == 25 * c + q;
    assert y / 100 == c;
  }

  lemma YearLength(y: nat)
    ensures DaysBefore(y + 1) == DaysBefore(y) + if (y + 1) % 4 == 0 && (y + 1) % 100 != 0 then 366 else 365
  {
    assert (y + 1) / 4 == y / 4 + if (y + 1) % 4 == 0 then 1 else 0;
    assert (y + 1) / 100 == y / 100 + if (y + 1) % 100 == 0 then 1 else 0;
  }

  lemma PartsBound(doe: nat, c: nat, q: nat, t: nat, u: nat, y: nat)
    requires doe < 146097 && doe == 36524 * c + 1461 * q + 365 * t + u
    requires c <= 3 && q <= 24 && t <= 3 && u <= 365 && y == 100 * c + 4 * q + t
    requires u == 365 ==> t == 3 && (q < 24 || c == 3)
    ensures y < 400 && doe == DaysBefore(y) + u && (y == 399 || doe < DaysBefore(y + 1))
  {
    PartsBefore(c, q, t);
    YearLength(y);
  }

  /** The year computed is the one whose days include `doe`; no difference goes below zero. */
  lemma YearBounds(doe: nat)
    requires doe < 146097
    ensures var y := YearOfEra(doe);
            y < 400 && DaysBefore(y) <= doe && (y == 399 || doe < DaysBefore(y + 1)) && doe - DaysBefore(y) <= 365
  {
    var c, q, t, u := EraParts(doe);
    YearFromParts(doe, c, q, t, u);
    PartsBound(doe, c, q, t, u, YearOfEra(doe));
  }

  lemma {:induction false} BeforeMonotone(y: nat, z: nat)
    requires y <= z
    ensures DaysBefore(y) <= DaysBefore(z)
  {
    if y < z {
      BeforeMonotone(y, z - 1);
      YearLength(z - 1);
    }
  }

  lemma YearUnique(doe: nat, y: nat)
    requires doe < 146097 && y < 400
    requires DaysBefore(y) <= doe && (y == 399 || doe < DaysBefore(y + 1))
    ensures YearOfEra(doe) == y
  {
    var z := YearOfEra(doe);
    if z < y {
      BeforeMonotone(z + 1, y);
    } else if y < z {
      BeforeMonotone(y + 1, z);
    }
    YearBounds(doe);
  }

  // ---------------------------------------------------------------------------------------------
  // Months
  // ---------------------------------------------------------------------------------------------

  /** First day of the month `mp`, counted from March. */
  function MonthStart(mp: nat): nat { (153 * mp + 2) / 5 }

  lemma MonthUnique(doy: nat, mp: nat)
    requires MonthStart(mp) <= doy < MonthStart(mp + 1)
    ensures (5 * doy + 2) / 153 == mp
  {
  }

  lemma MonthOf(doy: nat)
    requires doy <= 365
    ensures var mp := (5 * doy + 2) / 153; mp <= 11 && MonthStart(mp) <= doy < MonthStart(mp + 1)
  {
  }

  lemma MonthLengths(y: nat, mp: nat)
    requires mp <= 10
    ensures MonthStart(mp + 1) - MonthStart(mp) ==
            if mp < 10 then DaysInMonth(y, mp + 3) else DaysInMonth(y + 1, mp - 9)
    ensures MonthStart(11) == 337
  {
    if mp <= 5 {
      if mp == 0 {} else if mp == 1 {} else if mp == 2 {} else if mp == 3 {} else if mp == 4 {} else {}
    } else {
      if mp == 6 {} else if mp == 7 {} else if mp == 8 {} else if mp == 9 {} else {}
    }
  }

  /** Days of the year that begins in March of `y`. */
  function MarchYear(y: nat): nat { if Leap(y + 1) then 366 else 365 }

  lemma FromMarchIsDate(y: nat, doy: nat)
    requires doy < MarchYear(y)
    ensures IsDate(FromMarch(y, doy))
  {
    MonthOf(doy);
    var mp := (5 * doy + 2) / 153;
    if mp <= 10 {
      MonthLengths(y, mp);
    } else {
      MonthLengths(y, 10);
    }
  }

  /** Day `d` of month `mp`, counted from the March of year `y`. */
  function MarchDate(y: nat, mp: nat, d: nat): Date {
    if mp < 10 then Date(y, mp + 3, d) else Date(y + 1, mp - 9, d)
  }

  lemma InMonth(y: nat, doy: nat, mp: nat)
    requires doy <= 365 && MonthStart(mp) <= doy < MonthStart(mp + 1)
    ensures FromMarch(y, doy) == MarchDate(y, mp, doy - MonthStart(mp) + 1)
  {
    MonthUnique(doy, mp);
  }

  /** The day after, within the year that begins in March. */
  lemma NextInYear(y: nat, doy: nat)
    requires doy + 1 < MarchYear(y)
    ensures FromMarch(y, doy + 1) == NextDay(FromMarch(y, doy))
  {
    var mp, next := MonthsOf(y, doy);
    NextInMonth(y, doy, mp, next);
  }

  lemma MonthsOf(y: nat, doy: nat) returns (mp: nat, next: nat)
    requires doy + 1 <= 365
    ensures mp <= 11 && MonthStart(mp) <= doy < MonthStart(mp + 1)
    ensures next == if doy + 1 < MonthStart(mp + 1) then mp else mp + 1
    ensures MonthStart(next) <= doy + 1 && next <= 11
    ensures FromMarch(y, doy) == MarchDate(y, mp, doy - MonthStart(mp) + 1)
    ensures FromMarch(y, doy + 1) == MarchDate(y, next, doy + 1 - MonthStart(next) + 1)
  {
    MonthOf(doy);
    mp := (5 * doy + 2) / 153;
    InMonth(y, doy, mp);
    next := if doy + 1 < MonthStart(mp + 1) then mp else mp + 1;
    InMonth(y, doy + 1, next);
  }

  lemma NextInMonth(y: nat, doy: nat, mp: nat, next: nat)
    requires doy + 1 < MarchYear(y) && mp <= 11 && MonthStart(mp) <= doy < MonthStart(mp + 1)
    requires next == (if doy + 1 < MonthStart(mp + 1) then mp else mp + 1) && MonthStart(next) <= doy + 1 && next <= 11
    ensures MarchDate(y, next, doy + 1 - MonthStart(next) + 1) == NextDay(MarchDate(y, mp, doy - MonthStart(mp) + 1))
  {
    MonthLengths(y, if mp <= 10 then mp else 10);
  }

  /** The last of February is followed by the first of March. */
  lemma NextYear(y: nat)
    ensures FromMarch(y + 1, 0) == NextDay(FromMarch(y, MarchYear(y) - 1))
  {
    MonthLengths(y, 10);
    MonthUnique(MarchYear(y) - 1, 11);
  }

  // ---------------------------------------------------------------------------------------------
  // The calendar
  // ---------------------------------------------------------------------------------------------

  lemma Period(y: nat, m: nat)
    requires m in {4, 100, 400}
    ensures (y + 400) % m == y % m
  {
    var q, r := y / m, y % m;
    assert y + 400 == m * (q + 400 / m) + r;
  }

  lemma LeapPeriod(y: nat)
    ensures Leap(y + 400) == Leap(y)
  {
    Period(y, 4);
    Period(y, 100);
    Period(y, 400);
  }

  lemma {:induction false} LeapRepeats(y: nat, era: nat)
    ensures Leap(y + era * 400) == Leap(y)
  {
    if era > 0 {
      LeapRepeats(y, era - 1);
      LeapPeriod(y + (era - 1) * 400);
      assert y + era * 400 == (y + (era - 1) * 400) + 400;
    }
  }

  lemma MarchYearInEra(era: nat, y: nat)
    requires y < 400
    ensures MarchYear(y + era * 400) == if y == 399 then 366 else DaysBefore(y + 1) - DaysBefore(y)
  {
    YearLength(y);
    LeapRepeats(y + 1, era);
    assert y + era * 400 + 1 == (y + 1) + era * 400;
  }

  lemma DayOfYear(doe: nat, era: nat)
    requires doe < 146097
    ensures doe - DaysBefore(YearOfEra(doe)) < MarchYear(YearOfEra(doe) + era * 400)
  {
    YearBounds(doe);
    MarchYearInEra(era, YearOfEra(doe));
  }

  lemma Quotient(x: nat, q: nat, r: nat)
    requires x == q * 146097 + r && r < 146097
    ensures x / 146097 == q && x % 146097 == r
  {
  }

  lemma EraIs(n: nat, era: nat, doe: nat)
    requires n + 719468 < U64_LIMIT && doe < 146097 && n + 719468 == era * 146097 + doe
    ensures DaysToYmd(n) == InEra(era, doe)
  {
    Quotient(n + 719468, era, doe);
  }

  lemma EraOf(n: nat) returns (era: nat, doe: nat)
    requires n + 719468 < U64_LIMIT
    ensures doe < 146097 && n + 719468 == era * 146097 + doe
    ensures DaysToYmd(n) == InEra(era, doe)
  {
    era, doe := (n + 719468) / 146097, (n + 719468) % 146097;
  }

  /** The day after the last day of a year of the era is day 0 of the next year. */
  lemma LastOfYear(doe: nat, y: nat)
    requires doe < 146096 && y < 400 && DaysBefore(y) <= doe
    requires doe + 1 - DaysBefore(y) == if y == 399 then 366 else DaysBefore(y + 1) - DaysBefore(y)
    ensures y < 399 && YearOfEra(doe + 1) == y + 1 && doe + 1 == DaysBefore(y + 1)
  {
    if y < 398 {
      YearLength(y + 1);
    }
    if y < 399 {
      YearUnique(doe + 1, y + 1);
    }
  }

  /** From a day of a year that begins in March to the next, in the same year or the year after. */
  predicate Follows(y: nat, doy: nat, z: nat, next: nat) {
    && doy < MarchYear(y)
    && if doy + 1 < MarchYear(y) then z == y && next == doy + 1 else z == y + 1 && next == 0
  }

  lemma FollowingDay(y: nat, doy: nat, z: nat, next: nat)
    requires Follows(y, doy, z, next)
    ensures FromMarch(z, next) == NextDay(FromMarch(y, doy))
  {
    if doy + 1 < MarchYear(y) {
      NextInYear(y, doy);
    } else {
      NextYear(y);
    }
  }

  lemma DayOfEraFollows(era: nat, doe: nat, y: nat, doy: nat, z: nat, next: nat)
    requires doe < 146096 && y < 400
    requires doe == DaysBefore(y) + doy && doe + 1 == DaysBefore(z) + next && z == YearOfEra(doe + 1)
    requires doy < MarchYear(y + era * 400)
    ensures Follows(y + era * 400, doy, z + era * 400, next)
  {
    MarchYearInEra(era, y);
    if doy + 1 < MarchYear(y + era * 400) {
      YearUnique(doe + 1, y);
    } else {
      LastOfYear(doe, y);
    }
  }

  /** The year and the day of the year of a day of an era. */
  lemma DayIs(era: nat, doe: nat) returns (yoe: nat, doy: nat)
    requires doe < 146097
    ensures yoe == YearOfEra(doe) && yoe < 400 && doe == DaysBefore(yoe) + doy && doy <= 365
    ensures InEra(era, doe) == FromMarch(yoe + era * 400, doy)
    ensures doy < MarchYear(yoe + era * 400)
  {
    YearBounds(doe);
    DayOfYear(doe, era);
    yoe := YearOfEra(doe);
    doy := doe - DaysBefore(yoe);
  }

  /** Month and day are valid for the year, whatever the day count. */
  lemma AlwaysADate(n: nat)
    requires n + 719468 < U64_LIMIT
    ensures IsDate(DaysToYmd(n))
  {
    var era, doe := EraOf(n);
    var yoe, doy := DayIs(era, doe);
    FromMarchIsDate(yoe + era * 400, doy);
  }

  lemma EpochIsFirst()
    ensures DaysToYmd(0) == Date(1970, 1, 1)
  {
    EraIs(0, 4, 135080);
    YearUnique(135080, 369);
    var yoe, doy := DayIs(4, 135080);
    assert FromMarch(1969, 306) == Date(1970, 1, 1);
  }

  lemma YearsOfDays(era: nat, doe: nat) returns (y: nat, doy: nat, z: nat, next: nat)
    requires doe < 146096
    ensures Follows(y, doy, z, next) && next <= 365
    ensures InEra(era, doe) == FromMarch(y, doy) && InEra(era, doe + 1) == FromMarch(z, next)
  {
    var yoe, zoe;
    yoe, doy := DayIs(era, doe);
    zoe, next := DayIs(era, doe + 1);
    DayOfEraFollows(era, doe, yoe, doy, zoe, next);
    y, z := yoe + era * 400, zoe + era * 400;
  }

  lemma FollowsInEra(era: nat, doe: nat)
    requires doe < 146096
    ensures InEra(era, doe + 1) == NextDay(InEra(era, doe))
  {
    var y, doy, z, next := YearsOfDays(era, doe);
    FollowingDay(y, doy, z, next);
  }

  lemma AtPlace(era: nat, doe: nat, yoe: nat, doy: nat)
    requires doe < 146097 && yoe == YearOfEra(doe) && doe == DaysBefore(yoe) + doy && doy <= 365
    ensures InEra(era, doe) == FromMarch(yoe + era * 400, doy)
  {
    YearBounds(doe);
  }

  lemma LastDay(doe: nat, yoe: nat, doy: nat)
    requires doe == 146096 && yoe == 399 && doy == 365
    ensures yoe == YearOfEra(doe) && doe == DaysBefore(yoe) + doy
  {
  }

  lemma FirstDay(doe: nat, yoe: nat, doy: nat)
    requires doe == 0 && yoe == 0 && doy == 0
    ensures yoe == YearOfEra(doe) && doe == DaysBefore(yoe) + doy
  {
  }

  lemma AtLast(era: nat, doe: nat, yoe: nat, doy: nat)
    requires doe == 146096 && yoe == 399 && doy == 365
    ensures InEra(era, doe) == FromMarch(yoe + era * 400, doy)
  {
    LastDay(doe, yoe, doy);
    AtPlace(era, doe, yoe, doy);
  }

  lemma AtFirst(era: nat, doe: nat, yoe: nat, doy: nat)
    requires doe == 0 && yoe == 0 && doy == 0
    ensures InEra(era, doe) == FromMarch(yoe + era * 400, doy)
  {
    FirstDay(doe, yoe, doy);
    AtPlace(era, doe, yoe, doy);
  }

  lemma YearsOfEras(era: nat, last: nat, first: nat) returns (y: nat, doy: nat, z: nat, next: nat)
    requires last == 146096 && first == 0
    ensures Follows(y, doy, z, next) && next <= 365
    ensures InEra(era, last) == FromMarch(y, doy) && InEra(era + 1, first) == FromMarch(z, next)
  {
    y, doy, z, next := 399 + era * 400, 365, 0 + (era + 1) * 400, 0;
    MarchYearInEra(era, 399);
    AtLast(era, last, 399, doy);
    AtFirst(era + 1, first, 0, next);
  }

  lemma EraFollows(era: nat, last: nat, first: nat)
    requires last == 146096 && first == 0
    ensures InEra(era + 1, first) == NextDay(InEra(era, last))
  {
    var y, doy, z, next := YearsOfEras(era, last, first);
    FollowingDay(y, doy, z, next);
  }

  lemma NextInEras(era: nat, doe: nat) returns (e: nat, d: nat)
    requires doe < 146097
    ensures d < 146097 && e * 146097 + d == era * 146097 + doe + 1
    ensures InEra(e, d) == NextDay(InEra(era, doe))
  {
    if doe == 146096 {
      e, d := era + 1, 0;
      EraFollows(era, doe, d);
    } else {
      FollowsInEra(era, doe);
      e, d := era, doe + 1;
    }
  }

  /** Day n is the day after day n - 1. */
  lemma DaysFollow(n: nat)
    requires 0 < n && n + 719468 < U64_LIMIT
    ensures DaysToYmd(n) == NextDay(DaysToYmd(n - 1))
  {
    var era, doe := EraOf(n - 1);
    var e, d := NextInEras(era, doe);
    EraIs(n, e, d);
  }

  lemma DayAfter(n: nat, before: Date)
    requires 0 < n && n + 719468 < U64_LIMIT && DaysToYmd(n - 1) == before
    ensures DaysToYmd(n) == NextDay(before)
  {
    DaysFollow(n);
  }

  /** Counting days one by one and counting whole years and months agree. */
  lemma NextDayCounts(d: Date)
    requires IsDate(d) && d.year >= 1970
    ensures IsDate(NextDay(d)) && DayNumber(NextDay(d)) == DayNumber(d) + 1
  {
    if d.day == DaysInMonth(d.year, d.month) && d.month == 12 {
      YearOfMonths(d.year);
    }
  }

  lemma YearOfMonths(y: nat)
    ensures DaysToMonth(y, 12) + 31 == if Leap(y) then 366 else 365
  {
    var f := if Leap(y) then 1 else 0;
    assert DaysToMonth(y, 2) == 31;
    assert DaysToMonth(y, 3) == 59 + f;
    assert DaysToMonth(y, 4) == 90 + f;
    assert DaysToMonth(y, 5) == 120 + f;
    assert DaysToMonth(y, 6) == 151 + f;
    assert DaysToMonth(y, 7) == 181 + f;
    assert DaysToMonth(y, 8) == 212 + f;
    assert DaysToMonth(y, 9) == 243 + f;
    assert DaysToMonth(y, 10) == 273 + f;
    assert DaysToMonth(y, 11) == 304 + f;
    assert DaysToMonth(y, 12) == 334 + f;
  }

  /** The date n days after the epoch, one day at a time. */
  function NthDay(n: nat): Date {
    if n == 0 then Date(1970, 1, 1) else NextDay(NthDay(n - 1))
  }

  lemma {:induction false} NthDayCounts(n: nat)
    ensures IsDate(NthDay(n)) && NthDay(n).year >= 1970 && DayNumber(NthDay(n)) == n
  {
    if n > 0 {
      NthDayCounts(n - 1);
      NextDayCounts(NthDay(n - 1));
    }
  }

  function DayBefore(d: Date): Date
    requires IsDate(d) && d.year >= 1970
  {
    if d.day > 1 then d.(day := d.day - 1)
    else if d.month > 1 then Date(d.year, d.month - 1, DaysInMonth(d.year, d.month - 1))
    else Date(d.year - 1, 12, 31)
  }

  lemma AfterDayBefore(d: Date)
    requires IsDate(d) && d.year >= 1970 && d != Date(1970, 1, 1)
    ensures IsDate(DayBefore(d)) && DayBefore(d).year >= 1970 && NextDay(DayBefore(d)) == d
    ensures DayNumber(d) == DayNumber(DayBefore(d)) + 1
  {
    NextDayCounts(DayBefore(d));
  }

  lemma {:induction false} NthDayOfCount(d: Date)
    requires IsDate(d) && d.year >= 1970
    ensures NthDay(DayNumber(d)) == d
    decreases DayNumber(d)
  {
    if d != Date(1970, 1, 1) {
      AfterDayBefore(d);
      NthDayOfCount(DayBefore(d));
    }
  }

  /** The closed form computes what stepping one day at a time from the epoch does. */
  lemma {:induction false} ClosedFormSteps(n: nat)
    requires n + 719468 < U64_LIMIT
    ensures DaysToYmd(n) == NthDay(n)
  {
    if n == 0 {
      EpochIsFirst();
    } else {
      ClosedFormSteps(n - 1);
      DayAfter(n, NthDay(n - 1));
    }
  }

  /** The day count of the date computed for day n is n, and every date from the epoch on is computed. */
  lemma CountedBack(n: nat)
    requires n + 719468 < U64_LIMIT
    ensures IsDate(DaysToYmd(n)) && DaysToYmd(n).year >= 1970 && DayNumber(DaysToYmd(n)) == n
  {
    ClosedFormSteps(n);
    NthDayCounts(n);
  }

  lemma DateIsRecovered(d: Date)
    requires IsDate(d) && d.year >= 1970 && DayNumber(d) + 719468 < U64_LIMIT
    ensures DaysToYmd(DayNumber(d)) == d
  {
    NthDayOfCount(d);
    ClosedFormSteps(DayNumber(d));
  }
}
