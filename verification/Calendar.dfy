/** The journal's timestamp arithmetic against the Gregorian calendar. */
module Calendar {

  datatype Date = Date(year: int, month: int, day: int)

  // ---- The calendar itself ----

  predicate Leap(y: int) {
    y % 4 == 0 && (y % 100 != 0 || y % 400 == 0)
  }

  function DaysInMonth(y: int, m: int): int
    requires 1 <= m <= 12
  {
    if m == 2 then (if Leap(y) then 29 else 28)
    else if m == 4 || m == 6 || m == 9 || m == 11 then 30
    else 31
  }

  predicate Valid(d: Date) {
    1 <= d.month <= 12 && 1 <= d.day <= DaysInMonth(d.year, d.month)
  }

  /** The day after. */
  function Next(d: Date): (n: Date)
    requires Valid(d)
    ensures Valid(n)
  {
    if d.day < DaysInMonth(d.year, d.month) then d.(day := d.day + 1)
    else if d.month < 12 then Date(d.year, d.month + 1, 1)
    else Date(d.year + 1, 1, 1)
  }

  /** The date `n` days after 1970-01-01, by counting. */
  ghost function Counted(n: nat): (d: Date)
    ensures Valid(d)
  {
    if n == 0 then Date(1970, 1, 1) else Next(Counted(n - 1))
  }

  // ---- The arithmetic of the source ----

  /** Year of the 400-year era in which day `doe` falls; years begin in March. */
  function YearOfEra(doe: nat): int {
    (doe - doe / 1460 + doe / 36524 - doe / 146096) / 365
  }

  /** First day of the era's year `yoe`. */
  function YearStart(yoe: int): int {
    365 * yoe + yoe / 4 - yoe / 100
  }

  function MonthIndex(doy: int): int {
    (5 * doy + 2) / 153
  }

  function MonthStart(mp: int): int {
    (153 * mp + 2) / 5
  }

  /** Calendar month of the March-based month index. */
  function MonthNumber(mp: int): int {
    if mp < 10 then mp + 3 else mp - 9
  }

  /** Month and day for day `doy` of a year beginning in March. */
  function DateOfYear(y: int, doy: int): Date {
    var mp := MonthIndex(doy);
    var d := doy - MonthStart(mp) + 1;
    var mo := MonthNumber(mp);
    Date(if mo <= 2 then y + 1 else y, mo, d)
  }

  /** Date of day `doe` of the 400-year era that begins with year `base`. */
  function DateOfEra(base: int, doe: nat): Date {
    var yoe := YearOfEra(doe);
    var doy := doe - YearStart(yoe);
    DateOfYear(yoe + base, doy)
  }

  function CivilFromDays(days: nat): Date {
    var z := days + 719468;
    var era := z / 146097;
    DateOfEra(era * 400, z - era * 146097)
  }

  // ---- Year of era ----

  /** The year formula inverts the year starts; leap days make year lengths 365 or
      366, and the last year of the era has its 366th day. */
  lemma YearOfEraBrackets(doe: nat)
    requires doe < 146097
    ensures var y := YearOfEra(doe);
            0 <= y < 400 && YearStart(y) <= doe && (doe < YearStart(y + 1) || (y == 399 && doe == 146096))
  {
    if doe == 146096 {
      assert YearOfEra(146096) == 399 && YearStart(399) == 145731;
    } else {
      var c, k, s := SplitDay(doe);
      CenturyBrackets(c, k, s);
      assert 36524 * c + 1461 * k + s == doe;
    }
  }

  lemma SplitDay(doe: nat) returns (c: nat, k: nat, s: nat)
    requires doe < 146096
    ensures c < 4 && k <= 24 && s < 1461 && 1461 * k + s < 36524 && doe == 36524 * c + 1461 * k + s
  {
    c := doe / 36524;
    var r := doe % 36524;
    k, s := r / 1461, r % 1461;
  }

  /** Day `s` of the four-year cycle `k` of century `c`; `b` corrects the formula's 1460-day division. */
  lemma CenturyBrackets(c: nat, k: nat, s: nat)
    requires c < 4 && k <= 24 && s < 1461 && 1461 * k + s < 36524
    ensures var doe := 36524 * c + 1461 * k + s; var y := YearOfEra(doe);
            0 <= y < 400 && YearStart(y) <= doe < YearStart(y + 1)
  {
    var doe := 36524 * c + 1461 * k + s;
    var b := if 24 * c + k + s >= 1460 then 1 else 0;
    var t := (s - b) / 365;
    DivideDays(c, k, s, b);
    assert YearOfEra(doe) == 100 * c + 4 * k + t;
    assert 0 <= t <= 3;
    assert 365 * t <= s && (s < 365 * (t + 1) || (t == 3 && s < 1461));
    YearStartAt(c, k, t);
    if t < 3 { YearStartAt(c, k, t + 1); }
    else if k < 24 { YearStartAt(c, k + 1, 0); }
    else { YearStartAt(c + 1, 0, 0); }
  }

  lemma DivideDays(c: nat, k: nat, s: nat, b: nat)
    requires c < 4 && k <= 24 && s < 1461 && 1461 * k + s < 36524
    requires b == if 24 * c + k + s >= 1460 then 1 else 0
    ensures YearOfEra(36524 * c + 1461 * k + s) == 100 * c + 4 * k + (s - b) / 365
  {
    var doe := 36524 * c + 1461 * k + s;
    assert doe == 1460 * (25 * c + k + b) + (24 * c + k + s - 1460 * b);
    assert doe / 1460 == 25 * c + k + b;
    assert doe / 36524 == c;
    assert doe / 146096 == 0;
    assert doe - doe / 1460 + c == 365 * (100 * c + 4 * k) + (s - b);
  }

  lemma YearStartAt(c: nat, k: nat, t: nat)
    requires k < 25 && t < 4
    ensures YearStart(100 * c + 4 * k + t) == 36524 * c + 1461 * k + 365 * t
  {
    var y := 100 * c + 4 * k + t;
    assert y / 4 == 25 * c + k;
    assert y / 100 == c;
  }

  // ---- Successor ----

  /** Length of the March-based year `yoe` of an era beginning in year `400 * era`. */
  lemma YearLength(y: int)
    requires 0 <= y < 400
    ensures YearStart(y + 1) - YearStart(y) == (if Leap(y + 1) && y != 399 then 366 else 365)
  {
    var c, k, t := y / 100, y % 100 / 4, y % 4;
    assert y == 100 * c + 4 * k + t;
    YearStartAt(c, k, t);
    if t < 3 { YearStartAt(c, k, t + 1); }
    else if k < 24 { YearStartAt(c, k + 1, 0); }
    else { YearStartAt(c + 1, 0, 0); }
  }

  /** The day `d` of the March-based month `mp` of the year that began in March of `y`. */
  function MonthDay(y: int, mp: int, d: int): Date {
    Date(if MonthNumber(mp) <= 2 then y + 1 else y, MonthNumber(mp), d)
  }

  lemma DateIn(y: int, doy: int, mp: int)
    requires 0 <= mp <= 11 && MonthStart(mp) <= doy < MonthStart(mp + 1)
    ensures DateOfYear(y, doy) == MonthDay(y, mp, doy - MonthStart(mp) + 1)
  {
    SameMonth(doy, mp);
  }

  lemma MonthTable()
    ensures MonthStart(0) == 0 && MonthStart(1) == 31 && MonthStart(2) == 61 && MonthStart(3) == 92
    ensures MonthStart(4) == 122 && MonthStart(5) == 153 && MonthStart(6) == 184 && MonthStart(7) == 214
    ensures MonthStart(8) == 245 && MonthStart(9) == 275 && MonthStart(10) == 306 && MonthStart(11) == 337
    ensures MonthStart(12) == 367
  {
  }

  /** Every month but February has the length its start and the next one's leave. */
  lemma MonthLength(y: int, mp: int)
    requires 0 <= mp < 11
    ensures MonthStart(mp + 1) - MonthStart(mp) == DaysInMonth(MonthDay(y, mp, 1).year, MonthNumber(mp))
  {
    MonthTable();
  }

  lemma NextInMonth(y: int, doy: int, mp: int)
    requires 0 <= mp < 11 && MonthStart(mp) <= doy && doy + 1 < MonthStart(mp + 1)
    ensures Valid(DateOfYear(y, doy)) && Next(DateOfYear(y, doy)) == DateOfYear(y, doy + 1)
  {
    DateIn(y, doy, mp);
    DateIn(y, doy + 1, mp);
    MonthLength(y, mp);
  }

  lemma NextMonth(y: int, doy: int, mp: int)
    requires 0 <= mp < 11 && MonthStart(mp) <= doy && doy + 1 == MonthStart(mp + 1)
    ensures Valid(DateOfYear(y, doy)) && Next(DateOfYear(y, doy)) == DateOfYear(y, doy + 1)
  {
    MonthTable();
    DateIn(y, doy, mp);
    DateIn(y, doy + 1, mp + 1);
    MonthLength(y, mp);
  }

  lemma FebruaryNext(y: int, d: int)
    requires 1 <= d <= DaysInMonth(y, 2)
    ensures Valid(Date(y, 2, d))
    ensures Next(Date(y, 2, d)) == if d == DaysInMonth(y, 2) then Date(y, 3, 1) else Date(y, 2, d + 1)
  {
  }

  /** The March-based year ends with February, on its 28th or 29th. */
  lemma FebruaryLast(y: int, doy: int)
    requires InYear(y, doy) && 337 <= doy
    ensures 1 <= doy - 336 <= DaysInMonth(y + 1, 2) && (LastOfYear(y, doy) <==> doy - 336 == DaysInMonth(y + 1, 2))
  {
  }

  lemma NextInFebruary(y: int, doy: int)
    requires InYear(y, doy) && 337 <= doy
    ensures Valid(DateOfYear(y, doy))
    ensures Next(DateOfYear(y, doy)) == if LastOfYear(y, doy) then DateOfYear(y + 1, 0) else DateOfYear(y, doy + 1)
  {
    var d, last := doy - 336, doy - 336 == DaysInMonth(y + 1, 2);
    FebruaryLast(y, doy);
    FebruaryNext(y + 1, d);
    FebruaryDate(y, doy);
    if last {
      MonthTable();
      DateIn(y + 1, 0, 0);
    } else {
      FebruaryDate(y, doy + 1);
    }
  }

  lemma FebruaryDate(y: int, doy: int)
    requires 337 <= doy < 367
    ensures DateOfYear(y, doy) == Date(y + 1, 2, doy - 336)
  {
    MonthTable();
    DateIn(y, doy, 11);
  }

  /** Days March 1 (day 0) to the end of February run through the months in order. */
  lemma WithinYear(y: int, doy: int)
    requires InYear(y, doy)
    ensures Valid(DateOfYear(y, doy))
    ensures Next(DateOfYear(y, doy)) == if LastOfYear(y, doy) then DateOfYear(y + 1, 0) else DateOfYear(y, doy + 1)
  {
    var mp := MonthIndex(doy);
    MonthBrackets(doy);
    MonthTable();
    if mp == 11 {
      NextInFebruary(y, doy);
    } else if doy + 1 < MonthStart(mp + 1) {
      NextInMonth(y, doy, mp);
    } else {
      NextMonth(y, doy, mp);
    }
  }

  lemma MonthBrackets(doy: int)
    requires 0 <= doy < 367
    ensures var mp := MonthIndex(doy); 0 <= mp <= 11 && MonthStart(mp) <= doy < MonthStart(mp + 1)
  {
  }

  lemma SameMonth(doy: int, mp: int)
    requires 0 <= mp <= 11 && MonthStart(mp) <= doy < MonthStart(mp + 1)
    ensures MonthIndex(doy) == mp
  {
  }

  /** The 400-year cycle does not disturb leap years. */
  lemma LeapPeriod(y: int, y': int)
    requires (y' - y) % 400 == 0
    ensures Leap(y') == Leap(y)
  {
    assert y' % 400 == y % 400;
    Coarser(y);
    Coarser(y');
  }

  lemma Coarser(y: int)
    ensures y % 4 == y % 400 % 4 && y % 100 == y % 400 % 100
  {
    Remainder4(y, y / 400, y % 400);
    Remainder100(y, y / 400, y % 400);
  }

  lemma Remainder4(y: int, q: int, r: int)
    requires y == 400 * q + r
    ensures y % 4 == r % 4
  {
    assert y == 4 * (100 * q + r / 4) + r % 4;
  }

  lemma Remainder100(y: int, q: int, r: int)
    requires y == 400 * q + r
    ensures y % 100 == r % 100
  {
    assert y == 100 * (4 * q + r / 100) + r % 100;
  }

  lemma YearBounds(doe: nat)
    requires doe < 146097
    ensures var y := YearOfEra(doe); var doy := doe - YearStart(y);
            0 <= y < 400 && (0 <= doy < 365 || (doy == 365 && Leap(y + 1)))
    ensures doe == 146096 ==> YearOfEra(doe) == 399 && doe - YearStart(399) == 365
  {
    YearOfEraBrackets(doe);
    YearLength(YearOfEra(doe));
    assert Leap(400) && YearStart(399) == 145731;
  }

  /** Year starts order the years of two days. */
  lemma YearBetween(doe: nat, y: int)
    requires doe < 146096 && 0 <= y < 400 && YearStart(y) <= doe < YearStart(y + 1)
    ensures YearOfEra(doe) == y
  {
    YearOfEraBrackets(doe);
    YearStartMonotone(YearOfEra(doe), y);
    YearStartMonotone(y, YearOfEra(doe));
  }

  lemma DayOfYearBounds(doe: nat)
    requires doe < 146097
    ensures var y := YearOfEra(doe); var doy := doe - YearStart(y);
            0 <= y < 400 && (0 <= doy < 365 || (doy == 365 && Leap(y + 1)))
    ensures var y := YearOfEra(doe); var doy := doe - YearStart(y);
            doe + 1 < 146097 ==> if doy == 365 || (doy == 364 && !Leap(y + 1))
              then YearOfEra(doe + 1) == y + 1 && YearStart(y + 1) == doe + 1
              else YearOfEra(doe + 1) == y
    ensures doe == 146096 ==> YearOfEra(doe) == 399 && doe - YearStart(399) == 365
  {
    YearBounds(doe);
    if doe + 1 < 146097 { YearMoves(doe, YearOfEra(doe)); }
  }

  lemma YearMoves(doe: nat, y: int)
    requires doe + 1 < 146097 && y == YearOfEra(doe)
    ensures var doy := doe - YearStart(y);
            if doy == 365 || (doy == 364 && !Leap(y + 1))
            then YearOfEra(doe + 1) == y + 1 && YearStart(y + 1) == doe + 1
            else YearOfEra(doe + 1) == y
  {
    YearBounds(doe);
    YearLength(y);
    YearEnds();
    if y == 399 {
      if doe + 1 == 146096 { YearBounds(doe + 1); } else { YearBetween(doe + 1, y); }
    } else {
      YearStartMonotone(y, 399);
      if doe + 1 < YearStart(y + 1) {
        YearBetween(doe + 1, y);
      } else {
        YearLength(y + 1);
        YearBetween(doe + 1, y + 1);
      }
    }
  }

  lemma YearEnds()
    ensures YearStart(399) == 145731 && YearStart(400) == 146096 && Leap(400)
  {
  }

  lemma YearStartMonotone(a: int, b: int)
    ensures 0 <= a < b ==> YearStart(a + 1) <= YearStart(b)
  {
  }

  predicate InYear(y: int, doy: int) {
    0 <= doy < 365 || (doy == 365 && Leap(y + 1))
  }

  predicate LastOfYear(y: int, doy: int) {
    doy == 365 || (doy == 364 && !Leap(y + 1))
  }

  lemma DateWithin(base: int, doe: nat, y: int, doy: int, year: int)
    requires YearOfEra(doe) == y && doe - YearStart(y) == doy && year == y + base
    ensures DateOfEra(base, doe) == DateOfYear(year, doy)
  {
  }

  /** Year and day of the year for a day of an era, and where the next day falls. */
  lemma Locate(doe: nat) returns (y: int, doy: int, y': int, doy': int)
    requires doe < 146096
    ensures YearOfEra(doe) == y && doe - YearStart(y) == doy && InYear(y, doy)
    ensures YearOfEra(doe + 1) == y' && doe + 1 - YearStart(y') == doy'
    ensures if LastOfYear(y, doy) then y' == y + 1 && doy' == 0 else y' == y && doy' == doy + 1
  {
    DayOfYearBounds(doe);
    y, y' := YearOfEra(doe), YearOfEra(doe + 1);
    doy, doy' := doe - YearStart(y), doe + 1 - YearStart(y');
  }

  /** The next day within the years of an era. */
  lemma NextOfYear(base: int, y: int, doy: int, year: int, year': int, doy': int)
    requires base % 400 == 0 && InYear(y, doy) && year == y + base
    requires if LastOfYear(y, doy) then year' == year + 1 && doy' == 0 else year' == year && doy' == doy + 1
    ensures Valid(DateOfYear(year, doy)) && Next(DateOfYear(year, doy)) == DateOfYear(year', doy')
  {
    LeapPeriod(y + 1, year + 1);
    WithinYear(year, doy);
    if LastOfYear(y, doy) { SameDate(year + 1, 0, year', doy'); } else { SameDate(year, doy + 1, year', doy'); }
  }

  lemma SameDate(y: int, doy: int, y': int, doy': int)
    requires y == y' && doy == doy'
    ensures DateOfYear(y, doy) == DateOfYear(y', doy')
  {
  }

  lemma SameDates(d: Date, n: Date, d': Date, n': Date)
    requires d == d' && n == n' && Valid(d) && Next(d) == n
    ensures Valid(d') && Next(d') == n'
  {
  }

  lemma EraEnd(base: int, last: nat, year: int, doy: int)
    requires last == 146096 && doy == 365 && year == base + 399
    ensures DateOfEra(base, last) == DateOfYear(year, doy)
  {
    DateWithin(base, last, 399, doy, year);
  }

  lemma EraStart(base: int, first: nat, doy: int)
    requires first == 0 && doy == 0
    ensures DateOfEra(base, first) == DateOfYear(base, doy)
  {
    DateWithin(base, first, 0, doy, base);
  }

  /** A day count split into eras moves on by one day. */
  lemma CivilSteps(dateOfEra: (int, nat) -> Date, civil: nat -> Date, days: nat)
    requires forall n: nat :: civil(n) == dateOfEra((n + 719468) / 146097 * 400, (n + 719468) % 146097)
    requires forall base, doe: nat :: doe < 146096 && base % 400 == 0 ==>
               Valid(dateOfEra(base, doe)) && Next(dateOfEra(base, doe)) == dateOfEra(base, doe + 1)
    requires forall base :: base % 400 == 0 ==>
               Valid(dateOfEra(base, 146096)) && Next(dateOfEra(base, 146096)) == dateOfEra(base + 400, 0)
    ensures Valid(civil(days)) && civil(days + 1) == Next(civil(days))
  {
    EraMoves(days + 719468);
    assert civil(days + 1) == dateOfEra((days + 1 + 719468) / 146097 * 400, (days + 1 + 719468) % 146097);
  }

  lemma EraMoves(z: nat)
    ensures z / 146097 * 400 % 400 == 0
    ensures z % 146097 == 146096 ==> (z + 1) / 146097 * 400 == z / 146097 * 400 + 400 && (z + 1) % 146097 == 0
    ensures z % 146097 < 146096 ==> (z + 1) / 146097 * 400 == z / 146097 * 400 && (z + 1) % 146097 == z % 146097 + 1
  {
    if z % 146097 == 146096 {
      assert (z + 1) / 146097 == z / 146097 + 1;
    } else {
      assert (z + 1) / 146097 == z / 146097;
    }
  }

  /** The formula for day `days + 1` gives the calendar's next day, for every day count. */
  lemma CivilSuccessor(days: nat)
    ensures Valid(CivilFromDays(days)) && CivilFromDays(days + 1) == Next(CivilFromDays(days))
  {
    forall n: nat ensures CivilFromDays(n) == DateOfEra((n + 719468) / 146097 * 400, (n + 719468) % 146097) {
      var z := n + 719468;
      assert z - z / 146097 * 146097 == z % 146097;
    }
    forall base, doe: nat | doe < 146096 && base % 400 == 0
      ensures Valid(DateOfEra(base, doe)) && Next(DateOfEra(base, doe)) == DateOfEra(base, doe + 1)
    {
      var y, doy, y', doy' := Locate(doe);
      var year, year' := y + base, y' + base;
      NextOfYear(base, y, doy, year, year', doy');
      DateWithin(base, doe, y, doy, year);
      DateWithin(base, doe + 1, y', doy', year');
      SameDates(DateOfYear(year, doy), DateOfYear(year', doy'), DateOfEra(base, doe), DateOfEra(base, doe + 1));
    }
    forall base | base % 400 == 0
      ensures Valid(DateOfEra(base, 146096)) && Next(DateOfEra(base, 146096)) == DateOfEra(base + 400, 0)
    {
      var last, next, year, doy := 146096, base + 400, base + 399, 365;
      EraEnd(base, last, year, doy);
      EraStart(next, 0, 0);
      NextOfYear(base, 399, doy, year, next, 0);
      SameDates(DateOfYear(year, doy), DateOfYear(next, 0), DateOfEra(base, last), DateOfEra(next, 0));
    }
    CivilSteps(DateOfEra, CivilFromDays, days);
  }

  lemma Epoch()
    ensures CivilFromDays(0) == Date(1970, 1, 1)
  {
    assert 719468 == 4 * 146097 + 135080;
    assert YearOfEra(135080) == 369 && YearStart(369) == 134774;
    MonthTable();
    DateIn(1969, 306, 10);
  }

  /** Whatever starts at the epoch and moves by calendar successor counts days. */
  lemma {:induction false} SuccessorsCount(f: nat -> Date, n: nat)
    requires f(0) == Date(1970, 1, 1)
    requires forall k: nat :: Valid(f(k)) && f(k + 1) == Next(f(k))
    ensures f(n) == Counted(n)
  {
    if n > 0 {
      SuccessorsCount(f, n - 1);
      assert f(n - 1 + 1) == Next(f(n - 1));
    }
  }

  /** The date formula agrees with counting days on the calendar from 1970-01-01. */
  lemma CivilIsGregorian(days: nat)
    ensures CivilFromDays(days) == Counted(days)
  {
    Epoch();
    forall k: nat ensures Valid(CivilFromDays(k)) && CivilFromDays(k + 1) == Next(CivilFromDays(k)) {
      CivilSuccessor(k);
    }
    SuccessorsCount(CivilFromDays, days);
  }

  const U32: nat := 0x1_0000_0000
  const I64: nat := 0x8000_0000_0000_0000

  /** Within an era no unsigned subtraction goes below zero, and every intermediate value fits 32 bits. */
  lemma NoUnderflow(doe: nat)
    requires doe < 146097
    ensures doe / 1460 <= doe && doe / 146096 <= doe - doe / 1460 + doe / 36524 < U32
    ensures var yoe := YearOfEra(doe); 0 <= yoe < 400 && yoe / 100 <= 365 * yoe + yoe / 4 < U32 && YearStart(yoe) <= doe
    ensures var doy := doe - YearStart(YearOfEra(doe)); var mp := MonthIndex(doy);
            && 0 <= doy <= 365 && 5 * doy + 2 < U32
            && 0 <= mp <= 11 && 153 * mp + 2 < U32 && MonthStart(mp) <= doy && doy - MonthStart(mp) + 1 < U32
  {
    YearOfEraBrackets(doe);
    DayOfYearBounds(doe);
    MonthBrackets(doe - YearStart(YearOfEra(doe)));
  }

  /** From any 64-bit count of seconds the day of the era comes out below 146097, with no
      signed 64-bit value out of range on the way. */
  lemma EraFits(secs: nat)
    requires secs < 0x1_0000_0000_0000_0000
    ensures var z := secs / 86400 + 719468; var era := z / 146097;
            && z < I64 && 0 <= z - era * 146097 < 146097 && era * 146097 <= z && era * 400 + 400 < I64
  {
    var z := secs / 86400 + 719468;
    assert z == z / 146097 * 146097 + z % 146097;
  }

  // ---- The whole timestamp ----

  datatype Stamp = Stamp(date: Date, hour: nat, minute: nat, second: nat)

  function StampOf(secs: nat): Stamp {
    var time := secs % 86400;
    Stamp(CivilFromDays(secs / 86400), time / 3600, time % 3600 / 60, time % 60)
  }

  predicate DateBefore(a: Date, b: Date) {
    a.year < b.year || (a.year == b.year && (a.month < b.month || (a.month == b.month && a.day < b.day)))
  }

  /** Field by field; up to the year 9999 also the order of the zero-padded text. */
  predicate Before(a: Stamp, b: Stamp) {
    DateBefore(a.date, b.date) || (a.date == b.date &&
    (a.hour < b.hour || (a.hour == b.hour && (a.minute < b.minute || (a.minute == b.minute && a.second < b.second)))))
  }

  lemma {:induction false} CountedIncreases(a: nat, b: nat)
    requires a < b
    ensures DateBefore(Counted(a), Counted(b))
  {
    if a < b - 1 { CountedIncreases(a, b - 1); }
  }

  lemma TimeOfDay(time: nat)
    requires time < 86400
    ensures time / 3600 < 24 && time % 3600 / 60 < 60 && time % 60 < 60
    ensures time == 3600 * (time / 3600) + 60 * (time % 3600 / 60) + time % 60
  {
    assert time % 3600 % 60 == time % 60;
  }

  /** A time of day is written as its hours, minutes and seconds, on the date that counting
      the whole days from 1970-01-01 reaches. */
  lemma StampCounts(secs: nat, days: nat, hour: nat, minute: nat, second: nat)
    requires hour < 24 && minute < 60 && second < 60
    requires secs == 86400 * days + 3600 * hour + 60 * minute + second
    ensures StampOf(secs) == Stamp(Counted(days), hour, minute, second)
  {
    SplitSeconds(secs, days, 3600 * hour + 60 * minute + second);
    StampAt(secs, days, secs % 86400, hour, minute, second);
  }

  lemma StampAt(secs: nat, days: nat, time: nat, hour: nat, minute: nat, second: nat)
    requires secs / 86400 == days && secs % 86400 == time
    requires minute < 60 && second < 60 && time == 3600 * hour + 60 * minute + second
    ensures StampOf(secs) == Stamp(Counted(days), hour, minute, second)
  {
    HoursOf(time, hour, minute, second);
    StampParts(secs, days, time);
  }

  lemma StampParts(secs: nat, days: nat, time: nat)
    requires secs / 86400 == days && secs % 86400 == time
    ensures StampOf(secs) == Stamp(Counted(days), time / 3600, time % 3600 / 60, time % 60)
  {
    CivilIsGregorian(days);
  }

  lemma HoursOf(time: nat, hour: nat, minute: nat, second: nat)
    requires minute < 60 && second < 60 && time == 3600 * hour + 60 * minute + second
    ensures time / 3600 == hour && time % 3600 / 60 == minute && time % 60 == second
  {
    assert time % 3600 == 60 * minute + second;
    assert time == 60 * (60 * hour + minute) + second;
  }

  lemma SplitSeconds(secs: nat, days: nat, time: nat)
    requires secs == 86400 * days + time && time < 86400
    ensures secs / 86400 == days && secs % 86400 == time
  {
  }

  /** Log lines written later carry later timestamps: field-wise order is the order of the seconds. */
  lemma StampsIncrease(a: nat, b: nat)
    requires a < b
    ensures Before(StampOf(a), StampOf(b))
    ensures Valid(StampOf(a).date) && StampOf(a).hour < 24 && StampOf(a).minute < 60 && StampOf(a).second < 60
  {
    TimeOfDay(a % 86400);
    TimeOfDay(b % 86400);
    CivilIsGregorian(a / 86400);
    CivilIsGregorian(b / 86400);
    StampOrder(a, b, Counted(a / 86400), Counted(b / 86400));
  }

  lemma StampOrder(a: nat, b: nat, da: Date, db: Date)
    requires a < b && da == Counted(a / 86400) && db == Counted(b / 86400)
    ensures a / 86400 < b / 86400 ==> DateBefore(da, db)
    ensures a / 86400 == b / 86400 ==> da == db && a % 86400 < b % 86400
    ensures a / 86400 <= b / 86400
  {
    if a / 86400 < b / 86400 { CountedIncreases(a / 86400, b / 86400); }
  }
}
