/**
 * Date utilities of cumple.py: reading a day and month out of a free-form
 * roster date (parse_fecha_ddmmyy) and counting the days to the next
 * occurrence of a birthday (dias_hasta_proximo with its helper _safe_date).
 * `today` is an explicit input.
 */
module BirthdayDates {
  import opened Wrappers
  import opened PyText
  import opened Calendar

  /** The (day, month) pair parse_fecha_ddmmyy returns. */
  datatype DayMonth = DayMonth(day: int, month: int)

  /** The exceptions parse_fecha_ddmmyy raises. */
  datatype ParseError = TooFewParts | NotAnInteger | NotADate(why: DateError)

  /** The dummy year a day and month are validated against; it is a leap year. */
  const ReferenceYear := 2000

  /** The characters re.sub(r"[.\- ]", "/", s) rewrites. */
  predicate IsAltSeparator(c: char) {
    c == '.' || c == '-' || c == ' '
  }

  /** re.sub(r"[.\- ]", "/", s): every '.', '-' and ' ' becomes '/'. */
  function Slashed(s: string): (r: string)
    ensures |r| == |s|
    ensures forall i :: 0 <= i < |r| ==> r[i] == SlashChar(s[i])
  {
    if s == [] then [] else [SlashChar(s[0])] + Slashed(s[1..])
  }

  function SlashChar(c: char): char {
    if IsAltSeparator(c) then '/' else c
  }

  /** A date field: nothing in it is a slash, another separator or whitespace. */
  predicate IsFieldChar(c: char) {
    c != '/' && !IsAltSeparator(c) && !IsSpace(c)
  }

  predicate IsField(t: string) {
    forall i :: 0 <= i < |t| ==> IsFieldChar(t[i])
  }

  /** The pieces parse_fecha_ddmmyy looks at: the stripped text with every separator made '/', split on '/'. */
  function DatePieces(raw: string): (parts: seq<string>)
    ensures |parts| >= 1
  {
    Split(Slashed(Strip(raw)), IsSlash)
  }

  /** The day and month read from the first two pieces with int(), checked against the reference year. */
  function DayMonthOfPieces(parts: seq<string>): (r: Result<DayMonth, ParseError>)
    ensures r.Success? ==> IsValid(Date(ReferenceYear, r.value.month, r.value.day))
  {
    if |parts| < 2 then Failure(TooFewParts)
    else match ParseInt(parts[0])
      case None => Failure(NotAnInteger)
      case Some(d) =>
        match ParseInt(parts[1])
        case None => Failure(NotAnInteger)
        case Some(m) =>
          match MakeDate(ReferenceYear, m, d)
          case Failure(e) => Failure(NotADate(e))
          case Success(_) => Success(DayMonth(d, m))
  }

  /**
   * parse_fecha_ddmmyy(s): strip, turn '.', '-' and ' ' into '/', split on
   * '/', and read the first two pieces with int() as day and month; the pair
   * must be a real date in the reference year. A third piece (the year) is
   * never looked at.
   */
  function ParseDayMonth(raw: string): (r: Result<DayMonth, ParseError>)
    ensures r.Success? ==> IsValid(Date(ReferenceYear, r.value.month, r.value.day))
  {
    DayMonthOfPieces(DatePieces(raw))
  }

  /**
   * What parse_fecha_ddmmyy reports: too few parts exactly when the cleaned
   * text has no '/'; otherwise the day is int() of the first piece and the
   * month int() of the second, or the first of them int() rejects is named.
   */
  lemma ParseDayMonthReads(raw: string)
    ensures var parts := DatePieces(raw); var r := ParseDayMonth(raw);
      && (r == Failure(TooFewParts) <==> |parts| < 2)
      && (r == Failure(NotAnInteger) <==> |parts| >= 2 && (ParseInt(parts[0]).None? || ParseInt(parts[1]).None?))
      && (r.Success? ==> ParseInt(parts[0]) == Some(r.value.day) && ParseInt(parts[1]) == Some(r.value.month))
  {
  }

  // ---------------------------------------------------------------- parsing lemmas

  lemma SlashedConcat(a: string, b: string)
    ensures Slashed(a + b) == Slashed(a) + Slashed(b)
  {
  }

  lemma SlashedField(t: string)
    requires IsField(t)
    ensures Slashed(t) == t
  {
  }

  lemma FieldAvoidsSlash(t: string)
    requires IsField(t)
    ensures Avoids(t, IsSlash)
  {
  }

  /** Separator-free text between slashes is left alone by the rewriting. */
  lemma SlashedOfFields(a: string, b: string, rest: string)
    requires IsField(a) && IsField(b)
    ensures Slashed(a + "/" + b + rest) == a + "/" + b + Slashed(rest)
  {
    SlashedConcat(a + "/" + b, rest);
    SlashedConcat(a + "/", b);
    SlashedConcat(a, "/");
    SlashedField(a);
    SlashedField(b);
    assert Slashed("/") == "/";
  }

  /** Two fields followed by more pieces split into those fields and the rest's pieces. */
  lemma SplitOfFields(a: string, b: string, rest: string)
    requires IsField(a) && IsField(b)
    ensures Split(a + "/" + b + rest, IsSlash)
         == (if rest == [] then [a, b] else [a] + Split(b + rest, IsSlash))
  {
    FieldAvoidsSlash(a);
    FieldAvoidsSlash(b);
    ConcatAssoc(a + "/", b, rest);
    assert "/" == ['/'];
    SplitConcat(a, '/', b + rest, IsSlash);
    SplitAvoiding(a, IsSlash);
    if rest == [] {
      SplitAvoiding(b, IsSlash);
      assert b + rest == b;
    }
  }

  /** Two fields joined by '/' reach int() as exactly those two pieces. */
  lemma PiecesOfTwoFields(a: string, b: string)
    requires IsField(a) && IsField(b)
    ensures DatePieces(a + "/" + b) == [a, b]
  {
    var s := a + "/" + b;
    assert s[0] == if a == [] then '/' else a[0];
    assert s[|s| - 1] == if b == [] then '/' else b[|b| - 1];
    StripStripped(s);
    SlashedOfFields(a, b, "");
    assert s + "" == s;
    SplitOfFields(a, b, "");
  }

  /** Stripping a date with a year part only touches the year part. */
  lemma StripWithYear(a: string, b: string, year: string)
    requires a == [] || !IsSpace(a[0])
    ensures Strip(a + "/" + b + "/" + year) == a + "/" + b + ("/" + StripRight(year))
  {
    var p := a + "/" + b + "/";
    assert p[0] == if a == [] then '/' else a[0];
    StripAfterSolid(p, year);
    ConcatAssoc(a + "/" + b, "/", StripRight(year));
  }

  /** Two fields, a slash and anything: the first two pieces are the fields. */
  lemma PiecesWithYear(a: string, b: string, year: string)
    requires IsField(a) && IsField(b)
    ensures var parts := DatePieces(a + "/" + b + "/" + year); |parts| >= 2 && parts[..2] == [a, b]
  {
    SlashedStripWithYear(a, b, year);
    SplitLeadingFields(a, b, Slashed(StripRight(year)));
  }

  /** Splitting two fields followed by a separated tail yields the two fields first. */
  lemma SplitLeadingFields(a: string, b: string, tail: string)
    requires IsField(a) && IsField(b)
    ensures var parts := Split(a + "/" + b + ("/" + tail), IsSlash); |parts| >= 2 && parts[..2] == [a, b]
  {
    SplitAfterField(b, tail);
    SplitOfFields(a, b, "/" + tail);
    var rest := Split(tail, IsSlash);
    assert ([a] + ([b] + rest))[..2] == [a, b];
  }

  /** The rewriting of a stripped date with a year part only touches the year part. */
  lemma SlashedStripWithYear(a: string, b: string, year: string)
    requires IsField(a) && IsField(b)
    ensures Slashed(Strip(a + "/" + b + "/" + year)) == a + "/" + b + ("/" + Slashed(StripRight(year)))
  {
    var r := StripRight(year);
    assert a == [] || IsFieldChar(a[0]);
    StripWithYear(a, b, year);
    SlashedOfFields(a, b, "/" + r);
    SlashedConcat("/", r);
    assert Slashed("/") == "/";
  }

  /** A field followed by a slash is the first piece of the split. */
  lemma SplitAfterField(b: string, tail: string)
    requires IsField(b)
    ensures Split(b + ("/" + tail), IsSlash) == [b] + Split(tail, IsSlash)
  {
    FieldAvoidsSlash(b);
    ConcatAssoc(b, "/", tail);
    assert "/" == ['/'];
    SplitConcat(b, '/', tail, IsSlash);
    SplitAvoiding(b, IsSlash);
  }

  /**
   * Whatever follows the second field is ignored: a date with a year part
   * parses as the same date without it.
   */
  lemma YearPartIgnored(a: string, b: string, year: string)
    requires IsField(a) && IsField(b)
    ensures ParseDayMonth(a + "/" + b + "/" + year) == ParseDayMonth(a + "/" + b)
  {
    var withYear := DatePieces(a + "/" + b + "/" + year);
    var without := DatePieces(a + "/" + b);
    assert withYear[..2] == without by {
      PiecesWithYear(a, b, year);
      PiecesOfTwoFields(a, b);
    }
    LeadingPiecesDecide(withYear, without);
  }

  /** DayMonthOfPieces looks at the first two pieces only. */
  lemma LeadingPiecesDecide(p: seq<string>, q: seq<string>)
    requires |p| >= 2 && |q| == 2 && p[..2] == q
    ensures DayMonthOfPieces(p) == DayMonthOfPieces(q)
  {
    assert p[0] == q[0] && p[1] == q[1];
  }

  lemma DigitsAreField(t: string)
    requires AllDigits(t)
    ensures IsField(t)
  {
    forall i | 0 <= i < |t| ensures IsFieldChar(t[i]) {
      DigitIsNotSpace(t[i]);
    }
  }

  /** Once int() has read both pieces, only the calendar check remains. */
  lemma DayMonthOfNumbers(parts: seq<string>, d: int, m: int)
    requires |parts| >= 2 && ParseInt(parts[0]) == Some(d) && ParseInt(parts[1]) == Some(m)
    ensures DayMonthOfPieces(parts).Success? <==> IsValid(Date(ReferenceYear, m, d))
    ensures DayMonthOfPieces(parts).Success? ==> DayMonthOfPieces(parts).value == DayMonth(d, m)
  {
  }

  /** Two digit strings parse exactly when they name a real day and month of the reference year. */
  lemma ParseOfDigits(a: string, b: string)
    requires a != [] && b != [] && AllDigits(a) && AllDigits(b)
    ensures ParseDayMonth(a + "/" + b).Success?
        <==> IsValid(Date(ReferenceYear, DigitsValue(b), DigitsValue(a)))
    ensures ParseDayMonth(a + "/" + b).Success?
        ==> ParseDayMonth(a + "/" + b).value == DayMonth(DigitsValue(a), DigitsValue(b))
  {
    DigitsAreField(a);
    DigitsAreField(b);
    PiecesOfTwoFields(a, b);
    ParseIntDigits(a);
    ParseIntDigits(b);
    DayMonthOfNumbers([a, b], DigitsValue(a), DigitsValue(b));
  }

  /** A day and a month in digits, with an optional year part after them. */
  lemma ParseOfDigitsWithYear(a: string, b: string, year: string, d: nat, m: nat)
    requires a != [] && b != [] && AllDigits(a) && AllDigits(b)
    requires DigitsValue(a) == d && DigitsValue(b) == m
    ensures ParseDayMonth(a + "/" + b + "/" + year) == ParseDayMonth(a + "/" + b)
    ensures ParseDayMonth(a + "/" + b).Success? <==> IsValid(Date(ReferenceYear, m, d))
    ensures ParseDayMonth(a + "/" + b).Success? ==> ParseDayMonth(a + "/" + b).value == DayMonth(d, m)
  {
    DigitsAreField(a);
    DigitsAreField(b);
    YearPartIgnored(a, b, year);
    ParseOfDigits(a, b);
  }

  /** "29/02" is accepted whatever year part follows: 2000 has a 29 February. */
  lemma ParseLeapDayExample(year: string)
    ensures ParseDayMonth("29" + "/" + "02" + "/" + year) == Success(DayMonth(29, 2))
  {
    TwoDigitsValue("29");
    TwoDigitsValue("02");
    AcceptedDigits("29", "02", year, 29, 2);
  }

  lemma AcceptedDigits(a: string, b: string, year: string, d: nat, m: nat)
    requires a != [] && b != [] && AllDigits(a) && AllDigits(b)
    requires DigitsValue(a) == d && DigitsValue(b) == m
    requires IsValid(Date(ReferenceYear, m, d))
    ensures ParseDayMonth(a + "/" + b + "/" + year) == Success(DayMonth(d, m))
  {
    ParseOfDigitsWithYear(a, b, year, d, m);
  }

  /** "31/04" and "0/5" are rejected: no such day in the month. */
  lemma ParseBadDayExamples()
    ensures ParseDayMonth("31/04").Failure?
    ensures ParseDayMonth("0/5").Failure?
  {
    TwoDigitsValue("31");
    TwoDigitsValue("04");
    assert "31" + "/" + "04" == "31/04";
    RejectedDigits("31", "04", 31, 4);
    assert "0"[..0] == [] && "5"[..0] == [];
    assert "0" + "/" + "5" == "0/5";
    RejectedDigits("0", "5", 0, 5);
  }

  /** "31/13/25" is rejected: there is no month 13. */
  lemma ParseBadMonthExample()
    ensures ParseDayMonth("31/13/25").Failure?
  {
    TwoDigitsValue("31");
    TwoDigitsValue("13");
    assert "31" + "/" + "13" + "/" + "25" == "31/13/25";
    RejectedDigitsWithYear("31", "13", "25", 31, 13);
  }

  lemma RejectedDigitsWithYear(a: string, b: string, year: string, d: nat, m: nat)
    requires a != [] && b != [] && AllDigits(a) && AllDigits(b)
    requires DigitsValue(a) == d && DigitsValue(b) == m
    requires !IsValid(Date(ReferenceYear, m, d))
    ensures ParseDayMonth(a + "/" + b + "/" + year).Failure?
  {
    ParseOfDigitsWithYear(a, b, year, d, m);
  }

  lemma RejectedDigits(a: string, b: string, d: nat, m: nat)
    requires a != [] && b != [] && AllDigits(a) && AllDigits(b)
    requires DigitsValue(a) == d && DigitsValue(b) == m
    requires !IsValid(Date(ReferenceYear, m, d))
    ensures ParseDayMonth(a + "/" + b).Failure?
  {
    ParseOfDigits(a, b);
  }

  /** An empty date has a single piece, too few for a day and a month. */
  lemma EmptyDateFails()
    ensures ParseDayMonth("") == Failure(TooFewParts)
  {
    assert Strip("") == "" && Slashed("") == "";
    assert DatePieces("") == [""];
  }

  // ---------------------------------------------------------------- next occurrence

  /**
   * _safe_date(y, m, d): datetime.date(y, m, d), except that a 29 February
   * the year does not have becomes 28 February; every other error is raised.
   */
  function SafeDate(y: int, m: int, d: int): (r: Result<Date, DateError>)
    ensures r.Success? ==> IsValid(r.value) && r.value.year == y && r.value.month == m
    ensures r.Success? ==> r.value.day == d || (m == 2 && d == 29 && r.value.day == 28 && !IsLeapYear(y))
  {
    match MakeDate(y, m, d)
    case Success(date) => Success(date)
    case Failure(e) => if m == 2 && d == 29 then MakeDate(y, 2, 28) else Failure(e)
  }

  /** What dias_hasta_proximo returns: the days to wait and the year of the occurrence. */
  datatype Countdown = Countdown(days: int, year: int)

  /**
   * dias_hasta_proximo(day, month, today): this year's occurrence if it is
   * today or later, otherwise next year's, with the days from today to it.
   */
  function DaysUntilNext(day: int, month: int, today: Date): (r: Result<Countdown, DateError>)
    requires IsValid(today)
    ensures r.Success? ==> r.value.year == today.year || r.value.year == today.year + 1
  {
    match SafeDate(today.year, month, day)
    case Failure(e) => Failure(e)
    case Success(thisOne) =>
      if !Before(thisOne, today) then Success(Countdown(DaysBetween(thisOne, today), today.year))
      else
        match SafeDate(today.year + 1, month, day)
        case Failure(e) => Failure(e)
        case Success(nextOne) => Success(Countdown(DaysBetween(nextOne, today), today.year + 1))
  }

  /**
   * For a day and month valid in the reference year, _safe_date leaves the date
   * alone except for 29 February in a common year, which becomes 28 February.
   */
  lemma SafeDateOfReferenceDate(y: int, m: int, d: int)
    requires IsValid(Date(ReferenceYear, m, d)) && MinYear <= y <= MaxYear
    ensures SafeDate(y, m, d)
         == Success(if m == 2 && d == 29 && !IsLeapYear(y) then Date(y, 2, 28) else Date(y, m, d))
  {
    assert m != 2 ==> DaysInMonth(y, m) == DaysInMonth(ReferenceYear, m);
  }

  /** An occurrence later in the current year is less than a year away, and zero days away only if it is today. */
  lemma CountdownWithinYear(occ: Date, today: Date)
    requires IsValid(occ) && IsValid(today) && occ.year == today.year && !Before(occ, today)
    ensures 0 <= DaysBetween(occ, today) <= 365
    ensures DaysBetween(occ, today) == 0 <==> occ == today
  {
    OrdinalOrder(occ, today);
    DayOfYearBound(occ);
  }

  /** Consecutive occurrences of one birthday are at most 366 days apart, the Feb-29 fallback included. */
  lemma OccurrencesOneYearApart(y: int, month: int, day: int)
    requires SafeDate(y, month, day).Success? && SafeDate(y + 1, month, day).Success?
    ensures DaysBetween(SafeDate(y + 1, month, day).value, SafeDate(y, month, day).value) <= 366
  {
    var thisOne := SafeDate(y, month, day).value;
    var nextOne := SafeDate(y + 1, month, day).value;
    OneYearLater(y, month, thisOne.day, nextOne.day);
  }

  /**
   * `c` counts the days from `today` to the birthday's occurrence in year
   * c.year, that occurrence is not before today, and the count is zero
   * exactly when it is today.
   */
  predicate CountsToOccurrence(day: int, month: int, today: Date, c: Countdown)
    requires IsValid(today)
  {
    var occ := SafeDate(c.year, month, day);
    && occ.Success?
    && !Before(occ.value, today)
    && c.days == DaysBetween(occ.value, today)
    && (c.days == 0 <==> occ.value == today)
  }

  lemma ThisYearCountdown(day: int, month: int, today: Date)
    requires IsValid(today)
    requires SafeDate(today.year, month, day).Success? && !Before(SafeDate(today.year, month, day).value, today)
    ensures DaysUntilNext(day, month, today).Success?
    ensures DaysUntilNext(day, month, today).value.year == today.year
    ensures CountsToOccurrence(day, month, today, DaysUntilNext(day, month, today).value)
    ensures 0 <= DaysUntilNext(day, month, today).value.days <= 365
  {
    CountdownWithinYear(SafeDate(today.year, month, day).value, today);
  }

  lemma NextYearCountdown(day: int, month: int, today: Date)
    requires IsValid(today)
    requires SafeDate(today.year, month, day).Success? && Before(SafeDate(today.year, month, day).value, today)
    requires SafeDate(today.year + 1, month, day).Success?
    ensures DaysUntilNext(day, month, today).Success?
    ensures DaysUntilNext(day, month, today).value.year == today.year + 1
    ensures CountsToOccurrence(day, month, today, DaysUntilNext(day, month, today).value)
    ensures 0 <= DaysUntilNext(day, month, today).value.days <= 365
  {
    var thisOne := SafeDate(today.year, month, day).value;
    var nextOne := SafeDate(today.year + 1, month, day).value;
    assert DaysUntilNext(day, month, today) == Success(Countdown(DaysBetween(nextOne, today), today.year + 1));
    OrdinalOrder(thisOne, today);
    OrdinalOrder(nextOne, today);
    OccurrencesOneYearApart(today.year, month, day);
  }

  /**
   * The result of dias_hasta_proximo is the next occurrence on or after today:
   * it is this year's exactly when this year's is not before today, the count
   * is the day difference to it, never negative and at most 365, and it is
   * zero exactly when the occurrence is today.
   */
  lemma DaysUntilNextIsNextOccurrence(day: int, month: int, today: Date)
    requires IsValid(today)
    ensures var r := DaysUntilNext(day, month, today);
      r.Success? ==>
        && CountsToOccurrence(day, month, today, r.value)
        && 0 <= r.value.days <= 365
        && (r.value.year == today.year <==>
              SafeDate(today.year, month, day).Success? && !Before(SafeDate(today.year, month, day).value, today))
  {
    var thisYear := SafeDate(today.year, month, day);
    if thisYear.Success? {
      if !Before(thisYear.value, today) {
        ThisYearCountdown(day, month, today);
      } else if SafeDate(today.year + 1, month, day).Success? {
        NextYearCountdown(day, month, today);
      }
    }
  }

  /** A birthday that falls today is zero days away, in this year. */
  lemma TodayCountdown(today: Date)
    requires IsValid(today)
    ensures DaysUntilNext(today.day, today.month, today) == Success(Countdown(0, today.year))
  {
    assert MakeDate(today.year, today.month, today.day) == Success(today);
    ThisYearCountdown(today.day, today.month, today);
  }

  /**
   * For a date parse_fecha_ddmmyy accepts, dias_hasta_proximo fails only when
   * the next occurrence would fall after year 9999.
   */
  lemma DaysUntilNextDefined(dm: DayMonth, today: Date)
    requires IsValid(today) && IsValid(Date(ReferenceYear, dm.month, dm.day))
    ensures DaysUntilNext(dm.day, dm.month, today).Failure?
        <==> today.year == MaxYear && Before(SafeDate(today.year, dm.month, dm.day).value, today)
  {
    SafeDateOfReferenceDate(today.year, dm.month, dm.day);
    if today.year < MaxYear {
      SafeDateOfReferenceDate(today.year + 1, dm.month, dm.day);
    }
  }
}
