/** Relative Korean timestamps (frontend/src/utils/date-utils.ts): "N년 전",
    "N개월 전", …, "방금 전", and the 24-hour freshness test. The current time is
    a parameter in milliseconds; the date argument is already converted to its
    millisecond time value. */
module DateUtils {
  import opened Text

  /** The argument's time value: a valid date, an Invalid Date (an unparsable
      string, whose time value is NaN), or no date at all (a null or undefined
      argument, on which `getTime` throws). */
  datatype DateInput = At(ms: int) | InvalidDate | NoDate

  /** What `koreanTimeAgo` shows. */
  datatype Elapsed =
    | YearsAgo(years: int)
    | MonthsAgo(months: int)
    | DaysAgo(days: int)
    | HoursAgo(hours: int)
    | MinutesAgo(minutes: int)
    | JustNow
    | NoDateInfo

  const MsPerSecond := 1000
  const MsPerMinute := 60 * MsPerSecond
  const MsPerHour := 60 * MsPerMinute
  const MsPerDay := 24 * MsPerHour
  const MsPerMonth := 30 * MsPerDay
  const MsPerYear := 365 * MsPerDay

  /** Division that rounds down, stated without reference to `/`. */
  lemma DivUnique(a: int, m: int, q: int, r: int)
    requires m > 0 && 0 <= r < m && a == m * q + r
    ensures a / m == q
  {
    var q', r' := a / m, a % m;
    var k := q - q';
    assert m * k == r' - r by {
      assert m * q == m * q' + m * k;
    }
    MultipleBounds(m, k);
  }

  lemma MultipleBounds(m: int, k: int)
    requires m > 0
    ensures k >= 1 ==> m * k >= m
    ensures k <= -1 ==> m * k <= -m
  {
    if k >= 1 {
      assert m * k == m + m * (k - 1);
    } else if k <= -1 {
      assert m * k == -m + m * (k + 1);
    }
  }

  /** Taking the floor twice is taking it once by the product. */
  lemma FloorTwice(a: int, b: int, c: int)
    requires b > 0 && c > 0
    ensures (a / b) / c == a / (b * c)
  {
    var q, r := a / b, a % b;
    var q2, r2 := q / c, q % c;
    Regroup(a, b, c, q, r, q2, r2);
    ScaledRemainder(b, c, r2);
    DivUnique(a, b * c, q2, b * r2 + r);
  }

  lemma Regroup(a: int, b: int, c: int, q: int, r: int, q2: int, r2: int)
    requires a == b * q + r && q == c * q2 + r2
    ensures a == (b * c) * q2 + (b * r2 + r)
  {
    assert b * q == b * (c * q2) + b * r2;
    assert b * (c * q2) == (b * c) * q2;
  }

  lemma ScaledRemainder(b: int, c: int, r2: int)
    requires b > 0 && 0 <= r2 < c
    ensures 0 <= b * r2 <= b * c - b
  {
    var k := c - 1 - r2;
    assert b * c - b - b * r2 == b * k;
    ProductNonNegative(b, k);
    ProductNonNegative(b, r2);
  }

  lemma {:induction false} ProductNonNegative(x: int, y: int)
    requires x >= 0 && y >= 0
    ensures x * y >= 0
  {
    if y > 0 {
      ProductNonNegative(x, y - 1);
      assert x * y == x * (y - 1) + x;
    }
  }

  /** The unit chain of lines 20-25 on a whole number of milliseconds. */
  function Classify(diffMs: int): (e: Elapsed)
    ensures !e.NoDateInfo?
    ensures e.JustNow? <==> diffMs < MsPerMinute
  {
    ChainedUnits(diffMs);
    var diffSec := diffMs / 1000;
    var diffMin := diffSec / 60;
    var diffHour := diffMin / 60;
    var diffDay := diffHour / 24;
    var diffMonth := diffDay / 30;
    var diffYear := diffDay / 365;
    if diffYear > 0 then YearsAgo(diffYear)
    else if diffMonth > 0 then MonthsAgo(diffMonth)
    else if diffDay > 0 then DaysAgo(diffDay)
    else if diffHour > 0 then HoursAgo(diffHour)
    else if diffMin > 0 then MinutesAgo(diffMin)
    else JustNow
  }

  /** `koreanTimeAgo` as a choice of unit. NaN compares false with everything, so
      an Invalid Date falls through to "just now". */
  function TimeAgo(input: DateInput, now: int): (e: Elapsed)
    ensures e.NoDateInfo? <==> input.NoDate?
    ensures input.InvalidDate? ==> e == JustNow
    ensures input.At? ==> (e.JustNow? <==> now - input.ms < MsPerMinute)
  {
    match input
    case At(ms) => Classify(now - ms)
    case InvalidDate => JustNow
    case NoDate => NoDateInfo
  }

  /** Every relative time ends in " 전" ("ago"); a missing date has its own text. */
  function Render(e: Elapsed): (text: string)
    ensures e.NoDateInfo? ==> text == "날짜 정보 없음"
    ensures !e.NoDateInfo? ==> |text| >= 2 && text[|text| - 2..] == " 전"
  {
    match e
    case YearsAgo(n) => IntToString(n) + "년 전"
    case MonthsAgo(n) => IntToString(n) + "개월 전"
    case DaysAgo(n) => IntToString(n) + "일 전"
    case HoursAgo(n) => IntToString(n) + "시간 전"
    case MinutesAgo(n) => IntToString(n) + "분 전"
    case JustNow => "방금 전"
    case NoDateInfo => "날짜 정보 없음"
  }

  /** `koreanTimeAgo`. */
  function KoreanTimeAgo(input: DateInput, now: int): (text: string)
    ensures input.NoDate? <==> text == "날짜 정보 없음"
    ensures input.InvalidDate? ==> text == "방금 전"
    ensures !input.NoDate? ==> |text| >= 2 && text[|text| - 2..] == " 전"
  {
    Render(TimeAgo(input, now))
  }

  /** Each unit of the chain is the elapsed time divided by that unit's length. */
  lemma ChainedUnits(d: int)
    ensures d / 1000 / 60 == d / MsPerMinute
    ensures d / 1000 / 60 / 60 == d / MsPerHour
    ensures d / 1000 / 60 / 60 / 24 == d / MsPerDay
    ensures d / 1000 / 60 / 60 / 24 / 30 == d / MsPerMonth
    ensures d / 1000 / 60 / 60 / 24 / 365 == d / MsPerYear
  {
    FloorTwice(d, 1000, 60);
    FloorTwice(d, MsPerMinute, 60);
    FloorTwice(d, MsPerHour, 24);
    FloorTwice(d, MsPerDay, 30);
    FloorTwice(d, MsPerDay, 365);
  }

  /** The unit shown for an elapsed time `d`: the largest unit of which at least
      one whole has passed, with the count of whole units; under a minute, and
      for a date in the future, "just now". */
  lemma ClassifyThresholds(d: int)
    ensures d >= MsPerYear ==> Classify(d) == YearsAgo(d / MsPerYear)
    ensures MsPerMonth <= d < MsPerYear ==> Classify(d) == MonthsAgo(d / MsPerMonth)
    ensures MsPerDay <= d < MsPerMonth ==> Classify(d) == DaysAgo(d / MsPerDay)
    ensures MsPerHour <= d < MsPerDay ==> Classify(d) == HoursAgo(d / MsPerHour)
    ensures MsPerMinute <= d < MsPerHour ==> Classify(d) == MinutesAgo(d / MsPerMinute)
    ensures d < MsPerMinute ==> Classify(d) == JustNow
  {
    ChainedUnits(d);
  }

  /** Every count shown is at least one. */
  lemma CountsArePositive(d: int)
    ensures match Classify(d)
      case YearsAgo(n) => n >= 1
      case MonthsAgo(n) => n >= 1
      case DaysAgo(n) => n >= 1
      case HoursAgo(n) => n >= 1
      case MinutesAgo(n) => n >= 1
      case _ => true
  {
  }

  /** Months are counted as 30 days and years as 365, so 360 to 364 days ago
      reads "12개월 전". */
  lemma TwelveMonthsBeforeAYear(days: int)
    requires 360 <= days < 365
    ensures Classify(days * MsPerDay) == MonthsAgo(12)
  {
    ClassifyThresholds(days * MsPerDay);
    DivUnique(days * MsPerDay, MsPerMonth, 12, (days - 360) * MsPerDay);
  }

  /** `isWithin24Hours`: the elapsed hours, as a real quotient, are under 24. NaN
      makes the comparison false, and no date at all lands in the catch. */
  function IsWithin24Hours(input: DateInput, now: int): (within: bool)
    ensures input.At? ==> (within <==> now - input.ms < MsPerDay)
    ensures !input.At? ==> !within
  {
    match input
    case At(ms) => ((now - ms) as real) / (MsPerHour as real) < 24.0
    case InvalidDate => false
    case NoDate => false
  }

  /** The two functions agree: within 24 hours is exactly when the relative time
      shows hours, minutes or "just now". */
  lemma RecentIffShownInHoursOrLess(ms: int, now: int)
    ensures IsWithin24Hours(At(ms), now) <==>
      match TimeAgo(At(ms), now)
      case HoursAgo(_) => true
      case MinutesAgo(_) => true
      case JustNow => true
      case _ => false
  {
    ClassifyThresholds(now - ms);
  }

  /** A few values of the rendering. */
  lemma Examples()
    ensures KoreanTimeAgo(At(0), 59999) == "방금 전"
    ensures KoreanTimeAgo(At(0), 2 * MsPerHour) == "2시간 전"
    ensures KoreanTimeAgo(InvalidDate, 0) == "방금 전"
    ensures KoreanTimeAgo(NoDate, 0) == "날짜 정보 없음"
  {
    ClassifyThresholds(2 * MsPerHour);
  }
}
