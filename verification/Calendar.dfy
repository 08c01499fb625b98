/** The proleptic Gregorian calendar (ISO 8601), as `datetime.date` offers it, and the
    month arithmetic that three source files build from `replace(day=1)` and
    `timedelta(days=32)`. */
module Calendar {

  datatype Date = Date(year: int, month: int, day: int)

  predicate IsLeap(y: int) {
    y % 4 == 0 && (y % 100 != 0 || y % 400 == 0)
  }

  function DaysInMonth(y: int, m: int): (n: int)
    requires 1 <= m <= 12
    ensures 28 <= n <= 31
  {
    if m == 2 then (if IsLeap(y) then 29 else 28)
    else if m == 4 || m == 6 || m == 9 || m == 11 then 30
    else 31
  }

  predicate IsCivil(d: Date) {
    && 1 <= d.year
    && 1 <= d.month <= 12
    && 1 <= d.day <= DaysInMonth(d.year, d.month)
  }

  /** A date that exists. */
  type Civil = d: Date | IsCivil(d) witness Date(1, 1, 1)

  /** The day after, by the rules of the calendar alone. */
  function NextDay(d: Civil): Civil {
    if d.day < DaysInMonth(d.year, d.month) then Date(d.year, d.month, d.day + 1)
    else if d.month < 12 then Date(d.year, d.month + 1, 1)
    else Date(d.year + 1, 1, 1)
  }

  function PrevDay(d: Civil): Civil
    requires d != Date(1, 1, 1)
  {
    if 1 < d.day then Date(d.year, d.month, d.day - 1)
    else if 1 < d.month then Date(d.year, d.month - 1, DaysInMonth(d.year, d.month - 1))
    else Date(d.year - 1, 12, 31)
  }

  // ---- months, numbered consecutively across years: 12 is January of year 1 ----

  function MonthOf(d: Civil): (k: int)
    ensures 12 <= k && k / 12 == d.year && k % 12 == d.month - 1
  {
    12 * d.year + d.month - 1
  }

  function FirstDay(k: int): (d: Civil)
    requires 12 <= k
    ensures MonthOf(d) == k && d.day == 1
  {
    Date(k / 12, k % 12 + 1, 1)
  }

  function MonthLength(k: int): (n: int)
    ensures 28 <= n <= 31
  {
    DaysInMonth(k / 12, k % 12 + 1)
  }

  /** The day number on which month `k` starts; day 1 is 1 January of year 1. */
  function MonthStart(k: int): (n: int)
    requires 12 <= k
    ensures 1 <= n
    decreases k
  {
    if k == 12 then 1 else MonthStart(k - 1) + MonthLength(k - 1)
  }

  // ---- day numbers ----

  function Ordinal(d: Civil): (n: int)
    ensures 1 <= n
  {
    MonthStart(MonthOf(d)) + d.day - 1
  }

  /** The n-th day, counted one by one from 1 January of year 1. */
  function FromOrdinal(n: int): Civil
    requires 1 <= n
    decreases n
  {
    if n == 1 then Date(1, 1, 1) else NextDay(FromOrdinal(n - 1))
  }

  function AddDays(d: Civil, n: nat): Civil {
    FromOrdinal(Ordinal(d) + n)
  }

  lemma {:induction false} MonthStartStep(k: int)
    requires 12 <= k
    ensures MonthStart(k + 1) == MonthStart(k) + MonthLength(k)
  {
    hide MonthLength;
  }

  lemma {:induction false} MonthLengthOf(y: int, m: int)
    requires 1 <= m <= 12
    ensures MonthLength(12 * y + m - 1) == DaysInMonth(y, m)
  {
    assert (12 * y + m - 1) / 12 == y;
  }

  lemma {:induction false} NextDayOrdinal(d: Civil)
    ensures Ordinal(NextDay(d)) == Ordinal(d) + 1
  {
    hide DaysInMonth, MonthLength, MonthStart;
    var e, k := NextDay(d), MonthOf(d);
    if d.day < DaysInMonth(d.year, d.month) {
      assert MonthOf(e) == k;
    } else {
      assert e.day == 1 && MonthOf(e) == k + 1;
      MonthStartStep(k);
      MonthLengthOf(d.year, d.month);
    }
  }

  lemma {:induction false} OrdinalOfFirst()
    ensures Ordinal(Date(1, 1, 1)) == 1
  {
    assert MonthOf(Date(1, 1, 1)) == 12;
  }

  /** Day numbers and dates are mutually inverse: every number is the number of its date ... */
  lemma {:induction false} OrdinalOfDate(n: int)
    requires 1 <= n
    ensures Ordinal(FromOrdinal(n)) == n
    decreases n
  {
    hide NextDay, Ordinal;
    if n == 1 {
      OrdinalOfFirst();
    } else {
      OrdinalOfDate(n - 1);
      NextDayOrdinal(FromOrdinal(n - 1));
    }
  }

  /** ... and every date is the date of its number. */
  lemma {:induction false} DateOfOrdinal(d: Civil)
    ensures FromOrdinal(Ordinal(d)) == d
    decreases Ordinal(d)
  {
    hide Ordinal;
    if d == Date(1, 1, 1) {
      OrdinalOfFirst();
    } else {
      var p := PrevDay(d);
      assert NextDay(p) == d;
      NextDayOrdinal(p);
      DateOfOrdinal(p);
    }
  }

  // ---- the closed form, with the century leap rules ----

  function DaysBeforeYear(y: int): int {
    (y - 1) * 365 + (y - 1) / 4 - (y - 1) / 100 + (y - 1) / 400
  }

  function DaysBeforeMonth(y: int, m: int): int
    requires 1 <= m <= 12
  {
    [0, 31, 59, 90, 120, 151, 181, 212, 243, 273, 304, 334][m - 1]
    + if 2 < m && IsLeap(y) then 1 else 0
  }

  lemma {:induction false} Quotients(y: int)
    ensures y / 4 == (y - 1) / 4 + if y % 4 == 0 then 1 else 0
    ensures y / 100 == (y - 1) / 100 + if y % 100 == 0 then 1 else 0
    ensures y / 400 == (y - 1) / 400 + if y % 400 == 0 then 1 else 0
  {
  }

  lemma {:induction false} Centuries(y: int)
    ensures y % 100 == 0 ==> y % 4 == 0
    ensures y % 400 == 0 ==> y % 100 == 0
  {
  }

  lemma {:induction false} YearLength(y: int)
    ensures DaysBeforeYear(y + 1) == DaysBeforeYear(y) + if IsLeap(y) then 366 else 365
  {
    Quotients(y);
    Centuries(y);
  }

  lemma {:induction false} DaysBeforeNextMonth(y: int, m: int)
    requires 1 <= m <= 12
    ensures m < 12 ==> DaysBeforeMonth(y, m + 1) == DaysBeforeMonth(y, m) + DaysInMonth(y, m)
    ensures m == 12 ==> DaysBeforeYear(y + 1) == DaysBeforeYear(y) + DaysBeforeMonth(y, m) + DaysInMonth(y, m)
  {
    YearLength(y);
  }

  lemma {:induction false} FirstMonths(y: int)
    ensures MonthStart(12) == 1 && DaysBeforeYear(1) == 0 && DaysBeforeMonth(y, 1) == 0
  {
  }

  lemma {:induction false} MonthStartClosedForm(y: int, m: int)
    requires 1 <= y && 1 <= m <= 12
    ensures MonthStart(12 * y + m - 1) == DaysBeforeYear(y) + DaysBeforeMonth(y, m) + 1
    decreases y, m
  {
    hide MonthStart, MonthLength, DaysInMonth, DaysBeforeYear, DaysBeforeMonth;
    FirstMonths(y);
    if 1 < m {
      MonthStartClosedForm(y, m - 1);
      MonthLengthOf(y, m - 1);
      DaysBeforeNextMonth(y, m - 1);
      MonthStartStep(12 * y + m - 2);
    } else if 1 < y {
      MonthStartClosedForm(y - 1, 12);
      MonthLengthOf(y - 1, 12);
      DaysBeforeNextMonth(y - 1, 12);
      MonthStartStep(12 * y - 1);
    }
  }

  /** Counting days one at a time agrees with the Gregorian leap-year formula. */
  lemma {:induction false} OrdinalClosedForm(d: Civil)
    ensures Ordinal(d) == DaysBeforeYear(d.year) + DaysBeforeMonth(d.year, d.month) + d.day
  {
    MonthStartClosedForm(d.year, d.month);
  }

  // ---- days and the months they lie in ----

  lemma {:induction false} MonthStartMonotone(j: int, k: int)
    requires 12 <= j <= k
    ensures MonthStart(j) + 28 * (k - j) <= MonthStart(k)
    decreases k - j
  {
    if j < k {
      MonthStartMonotone(j, k - 1);
    }
  }

  lemma {:induction false} DateInItsMonth(d: Civil)
    ensures Ordinal(d) == MonthStart(MonthOf(d)) + d.day - 1
    ensures MonthLength(MonthOf(d)) == DaysInMonth(d.year, d.month)
    ensures MonthStart(MonthOf(d)) <= Ordinal(d) < MonthStart(MonthOf(d) + 1)
  {
  }

  /** A day number belongs to month `k` exactly when it lies between two month starts. */
  lemma {:induction false} MonthOfOrdinal(n: int, k: int)
    requires 1 <= n && 12 <= k
    ensures MonthOf(FromOrdinal(n)) == k <==> MonthStart(k) <= n < MonthStart(k + 1)
  {
    hide MonthStart, Ordinal, FromOrdinal;
    var d := FromOrdinal(n);
    OrdinalOfDate(n);
    DateInItsMonth(d);
    var j := MonthOf(d);
    if j < k {
      MonthStartMonotone(j + 1, k);
    } else if k < j {
      MonthStartMonotone(k + 1, j);
    }
  }

  // ---- the source's month arithmetic ----

  function MonthFloor(d: Civil): Civil {
    Date(d.year, d.month, 1)
  }

  function AddMonth(d: Civil): Civil {
    MonthFloor(AddDays(d, 32))
  }

  /** `_next_month` of the partition sensor. */
  function NextMonth(d: Civil): Civil {
    var first := Date(d.year, d.month, 1);
    var later := AddDays(first, 32);
    Date(later.year, later.month, 1)
  }

  function AddMonths(d: Civil, j: nat): Civil {
    if j == 0 then d else AddMonth(AddMonths(d, j - 1))
  }

  lemma {:induction false} FloorIsFirstDay(d: Civil)
    ensures MonthFloor(d) == FirstDay(MonthOf(d))
  {
  }

  lemma {:induction false} TwoMonthsLater(k: int)
    requires 12 <= k
    ensures MonthStart(k + 2) == MonthStart(k) + MonthLength(k) + MonthLength(k + 1)
  {
    assert MonthStart(k + 2) == MonthStart(k + 1) + MonthLength(k + 1);
  }

  lemma {:induction false} AddMonthLandsIn(d: Civil, k: int)
    requires 12 <= k
    ensures AddMonth(d) == FirstDay(k) <==> MonthStart(k) <= Ordinal(d) + 32 < MonthStart(k + 1)
  {
    MonthOfOrdinal(Ordinal(d) + 32, k);
    FloorIsFirstDay(AddDays(d, 32));
  }

  /** The 32-day jump lands in the next month exactly when the day of the month leaves room
      for it; otherwise it skips that month. */
  lemma {:induction false} AddMonthExactIff(d: Civil)
    ensures AddMonth(d) == FirstDay(MonthOf(d) + 1)
            <==> d.day + 32 <= MonthLength(MonthOf(d)) + MonthLength(MonthOf(d) + 1)
    ensures AddMonth(d) == FirstDay(MonthOf(d) + 1) || AddMonth(d) == FirstDay(MonthOf(d) + 2)
  {
    var k := MonthOf(d);
    AddMonthLandsIn(d, k + 1);
    AddMonthLandsIn(d, k + 2);
    TwoMonthsLater(k);
    assert MonthStart(k + 1) == MonthStart(k) + MonthLength(k);
    assert MonthStart(k + 3) == MonthStart(k + 2) + MonthLength(k + 2);
  }

  /** From 30 or 31 January the jump skips February, in every year. */
  lemma {:induction false} AddMonthSkipsFebruary(d: Civil)
    requires d.month == 1 && 30 <= d.day
    ensures AddMonth(d) == Date(d.year, 3, 1)
  {
    AddMonthExactIff(d);
    MonthLengthOf(d.year, 1);
    MonthLengthOf(d.year, 2);
  }

  lemma {:induction false} AddMonthOfFirst(k: int)
    requires 12 <= k
    ensures AddMonth(FirstDay(k)) == FirstDay(k + 1)
  {
    AddMonthExactIff(FirstDay(k));
  }

  /** The loops' month cursor: after `j` steps from any day it stands on the first day of the
      month `j` months later. */
  lemma {:induction false} MonthArithmeticExact(d: Civil, j: nat)
    ensures AddMonths(MonthFloor(d), j) == FirstDay(MonthOf(d) + j)
  {
    hide AddMonth, MonthFloor, FirstDay, MonthOf;
    FloorIsFirstDay(d);
    if j != 0 {
      MonthArithmeticExact(d, j - 1);
      AddMonthOfFirst(MonthOf(d) + j - 1);
    }
  }

  lemma {:induction false} NextMonthIsAddMonth(d: Civil)
    ensures NextMonth(d) == AddMonth(MonthFloor(d)) == FirstDay(MonthOf(d) + 1)
  {
    FloorIsFirstDay(d);
    AddMonthOfFirst(MonthOf(d));
  }

  // ---- strftime("%Y") and strftime("%m") ----

  function Digit(n: int): char
    requires 0 <= n <= 9
  {
    '0' + n as char
  }

  function Decimal(n: nat): (s: string)
    ensures 1 <= |s|
    ensures 10 <= n ==> 2 <= |s|
  {
    if n < 10 then [Digit(n)] else Decimal(n / 10) + [Digit(n % 10)]
  }

  /** The decimal numeral of `n`, padded with zeros to at least `width` digits. */
  function Padded(n: nat, width: nat): string
    decreases width, n
  {
    if width <= 1 then Decimal(n) else Padded(n / 10, width - 1) + [Digit(n % 10)]
  }

  function YearMonth(d: Civil, separator: char): string {
    Padded(d.year, 4) + [separator] + [Digit(d.month / 10), Digit(d.month % 10)]
  }

  predicate IsNumeral(s: string) {
    s != [] && forall i :: 0 <= i < |s| ==> '0' <= s[i] <= '9'
  }

  /** The number that a numeral denotes. */
  function ValueOf(s: string): int {
    if s == [] then 0 else 10 * ValueOf(s[..|s| - 1]) + (s[|s| - 1] as int - '0' as int)
  }

  lemma {:induction false} DecimalReads(n: nat)
    ensures IsNumeral(Decimal(n)) && ValueOf(Decimal(n)) == n
    ensures n < 10 ==> |Decimal(n)| == 1
  {
    if n < 10 {
      assert Decimal(n)[..0] == [];
    } else {
      DecimalReads(n / 10);
      assert Decimal(n)[..|Decimal(n)| - 1] == Decimal(n / 10);
    }
  }

  lemma {:induction false} PaddedReads(n: nat, width: nat)
    ensures IsNumeral(Padded(n, width)) && ValueOf(Padded(n, width)) == n && width <= |Padded(n, width)|
    decreases width
  {
    hide Decimal;
    if width <= 1 {
      DecimalReads(n);
    } else {
      PaddedReads(n / 10, width - 1);
      assert Padded(n, width)[..|Padded(n, width)| - 1] == Padded(n / 10, width - 1);
    }
  }

  lemma {:induction false} FourDigits(n: nat)
    requires n < 10000
    ensures |Padded(n, 4)| == 4
  {
    assert Padded(n, 4) == Padded(n / 10, 3) + [Digit(n % 10)];
    assert Padded(n / 10, 3) == Padded(n / 10 / 10, 2) + [Digit(n / 10 % 10)];
    assert Padded(n / 10 / 10, 2) == Padded(n / 10 / 10 / 10, 1) + [Digit(n / 10 / 10 % 10)];
    DecimalReads(n / 10 / 10 / 10);
  }

  /** The text is the year in at least four digits (four, up to the year 9999), the separator, and
      the month in two. */
  lemma {:induction false} YearMonthReads(d: Civil, separator: char)
    ensures var s := YearMonth(d, separator);
            && 7 <= |s| && s[|s| - 3] == separator
            && IsNumeral(s[..|s| - 3]) && ValueOf(s[..|s| - 3]) == d.year
            && IsNumeral(s[|s| - 2..]) && ValueOf(s[|s| - 2..]) == d.month
            && (d.year < 10000 ==> |s| == 7)
  {
    hide Padded;
    var s, year, month := YearMonth(d, separator), Padded(d.year, 4), [Digit(d.month / 10), Digit(d.month % 10)];
    PaddedReads(d.year, 4);
    if d.year < 10000 {
      FourDigits(d.year);
    }
    assert s[..|s| - 3] == year && s[|s| - 2..] == month;
    assert month[..1] == [Digit(d.month / 10)] && month[..1][..0] == [];
    assert ValueOf(month) == 10 * ValueOf(month[..1]) + d.month % 10;
    assert ValueOf(month[..1]) == 10 * ValueOf(month[..1][..0]) + d.month / 10;
  }

  /** The last digit and the digits before it, taken apart. */
  lemma {:induction false} LastDigit(s: string, t: string, m: nat, n: nat)
    requires s + [Digit(m % 10)] == t + [Digit(n % 10)]
    ensures s == t && m % 10 == n % 10
  {
    var u, v := s + [Digit(m % 10)], t + [Digit(n % 10)];
    assert s == u[..|u| - 1] && t == v[..|v| - 1];
    assert u[|u| - 1] == Digit(m % 10) && v[|v| - 1] == Digit(n % 10);
  }

  lemma {:induction false} DecimalInjective(m: nat, n: nat)
    requires Decimal(m) == Decimal(n)
    ensures m == n
  {
    if m < 10 || n < 10 {
      assert |Decimal(m)| == 1 && |Decimal(n)| == 1;
      assert Decimal(m)[0] == Digit(m) && Decimal(n)[0] == Digit(n);
    } else {
      LastDigit(Decimal(m / 10), Decimal(n / 10), m, n);
      DecimalInjective(m / 10, n / 10);
    }
  }

  lemma {:induction false} PaddedInjective(m: nat, n: nat, width: nat)
    requires Padded(m, width) == Padded(n, width)
    ensures m == n
    decreases width, n
  {
    if width <= 1 {
      DecimalInjective(m, n);
    } else {
      LastDigit(Padded(m / 10, width - 1), Padded(n / 10, width - 1), m, n);
      PaddedInjective(m / 10, n / 10, width - 1);
    }
  }

  /** Year and month can be read back from the text. */
  lemma {:induction false} YearMonthInjective(d: Civil, e: Civil, separator: char)
    requires YearMonth(d, separator) == YearMonth(e, separator)
    ensures MonthOf(d) == MonthOf(e)
  {
    var s, t := YearMonth(d, separator), YearMonth(e, separator);
    var n := |s|;
    assert s[n - 1] == Digit(d.month % 10) && t[n - 1] == Digit(e.month % 10);
    assert s[n - 2] == Digit(d.month / 10) && t[n - 2] == Digit(e.month / 10);
    assert s[..n - 3] == Padded(d.year, 4) && t[..n - 3] == Padded(e.year, 4);
    PaddedInjective(d.year, e.year, 4);
  }
}
