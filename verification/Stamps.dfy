/**
 The two fixed-width time encodings (internal/store/dynamodb/item.go) and the
 orders DynamoDB's bytewise comparison gives them.
 */
module Stamps {
  import opened Arithmetic
  import opened Bytes

  const NANOS_PER_SECOND := 1_000_000_000

  /** time.Time in UTC: Unix seconds and the nanoseconds within the second. */
  datatype InstantRaw = Instant(sec: int, nanos: int)
  type Instant = t: InstantRaw | 0 <= t.nanos < NANOS_PER_SECOND witness InstantRaw.Instant(0, 0)

  /** Nanoseconds since the epoch, unbounded: the exact order of instants. */
  function Nanos(t: Instant): int { t.sec * NANOS_PER_SECOND + t.nanos }

  predicate Before(t: Instant, u: Instant) { Nanos(t) < Nanos(u) }

  lemma BeforeIsLexicographic(t: Instant, u: Instant)
    ensures Before(t, u) <==> t.sec < u.sec || (t.sec == u.sec && t.nanos < u.nanos)
  {
  }

  function Plus(t: Instant, nanos: int): (r: Instant)
    ensures Nanos(r) == Nanos(t) + nanos
  {
    var n := Nanos(t) + nanos;
    Instant(n / NANOS_PER_SECOND, n % NANOS_PER_SECOND)
  }

  // ---- descendingStamp -------------------------------------------------

  const MAX_NANO_SECOND := MAX_INT64 / NANOS_PER_SECOND

  /** time.Time{}: midnight, 1 January of year 1. */
  const ZERO_TIME: Instant := InstantRaw.Instant(-62135596800, 0)

  /** unixNanosSaturating. */
  function UnixNanosSaturating(t: Instant): (n: int)
    ensures 0 <= n <= MAX_INT64
  {
    if t == ZERO_TIME then 0
    else if t.sec < 0 then 0
    else if t.sec >= MAX_NANO_SECOND then MAX_INT64
    else Nanos(t)
  }

  /** Saturation keeps the order of instants and is exact from 1970 up to the last whole int64 second. */
  lemma SaturationIsMonotone(t: Instant, u: Instant)
    ensures !Before(u, t) ==> UnixNanosSaturating(t) <= UnixNanosSaturating(u)
    ensures 0 <= t.sec < MAX_NANO_SECOND ==> UnixNanosSaturating(t) == Nanos(t)
  {
  }

  const STAMP_WIDTH := 19

  lemma MaxInt64FitsStamp()
    ensures MAX_INT64 < Pow10(STAMP_WIDTH)
  {
    assert Pow10(6) == 1_000_000;
    assert Pow10(12) == 1_000_000_000_000;
    assert Pow10(18) == 1_000_000_000_000_000_000;
  }

  /** descendingStamp: the 19-digit complement of the saturated nanoseconds. */
  function DescendingStamp(t: Instant): (s: string)
    ensures |s| == STAMP_WIDTH
  {
    Complement(UnixNanosSaturating(t))
  }

  function Complement(n: nat): (s: string)
    requires n <= MAX_INT64
    ensures |s| == STAMP_WIDTH
  {
    MaxInt64FitsStamp();
    Pad(MAX_INT64 - n, STAMP_WIDTH)
  }

  /** Complementing against a common maximum reverses the order of padded numbers. */
  lemma ComplementOrder(a: nat, b: nat, max: nat, width: nat)
    requires a <= max && b <= max && max < Pow10(width)
    ensures Less(Pad(max - a, width), Pad(max - b, width)) <==> a > b
    ensures Pad(max - a, width) == Pad(max - b, width) <==> a == b
  {
    PadOrder(max - a, max - b, width);
  }

  lemma ComplementReverses(a: nat, b: nat)
    requires a <= MAX_INT64 && b <= MAX_INT64
    ensures Less(Complement(a), Complement(b)) <==> a > b
    ensures Complement(a) == Complement(b) <==> a == b
  {
    MaxInt64FitsStamp();
    ComplementOrder(a, b, MAX_INT64, STAMP_WIDTH);
  }

  lemma DescendingStampOrder(t: Instant, u: Instant)
    ensures Less(DescendingStamp(t), DescendingStamp(u)) <==> UnixNanosSaturating(t) > UnixNanosSaturating(u)
    ensures DescendingStamp(t) == DescendingStamp(u) <==> UnixNanosSaturating(t) == UnixNanosSaturating(u)
  {
    ComplementReverses(UnixNanosSaturating(t), UnixNanosSaturating(u));
  }

  /** apiKeyDirectorySK. */
  function ApiKeyDirectorySk(createdAt: Instant, id: string): string {
    DescendingStamp(createdAt) + [SEP] + id
  }

  /** Forward bytewise order of the directory is creation descending, then id ascending. */
  lemma DirectoryOrder(t: Instant, id: string, u: Instant, id': string)
    ensures Less(ApiKeyDirectorySk(t, id), ApiKeyDirectorySk(u, id')) <==>
            UnixNanosSaturating(t) > UnixNanosSaturating(u)
            || (UnixNanosSaturating(t) == UnixNanosSaturating(u) && Less(id, id'))
  {
    DescendingStampOrder(t, u);
    assert ApiKeyDirectorySk(t, id) == DescendingStamp(t) + ([SEP] + id);
    assert ApiKeyDirectorySk(u, id') == DescendingStamp(u) + ([SEP] + id');
    LessByHead(DescendingStamp(t), [SEP] + id, DescendingStamp(u), [SEP] + id');
    LessByHead([SEP], id, [SEP], id');
    LessIrreflexive([SEP]);
  }

  /** A record with a zero or pre-1970 creation instant sorts after every record created since. */
  lemma UnsetCreationSortsLast(t: Instant, id: string, u: Instant, id': string)
    requires t == ZERO_TIME || t.sec < 0
    requires Nanos(u) > 0
    ensures Less(ApiKeyDirectorySk(u, id'), ApiKeyDirectorySk(t, id))
  {
    DirectoryOrder(u, id', t, id);
  }

  // ---- formatTime -------------------------------------------------------

  const SECONDS_PER_DAY := 86_400
  const EPOCH_DAY := 719_528   // days from 1 January of year 0 to 1 January 1970
  const DAYS_BEFORE_YEAR_10000 := 3_652_425

  predicate IsLeap(year: nat) { year % 4 == 0 && (year % 100 != 0 || year % 400 == 0) }

  function YearLength(year: nat): nat { if IsLeap(year) then 366 else 365 }

  function MonthLength(leap: bool, month: nat): nat
    requires 1 <= month <= 12
  {
    if month == 2 then (if leap then 29 else 28)
    else if month == 4 || month == 6 || month == 9 || month == 11 then 30
    else 31
  }

  /** The days of `month` and the months after it. */
  function DaysFromMonth(leap: bool, month: nat): nat
    requires 1 <= month <= 13
    decreases 13 - month
  {
    if month == 13 then 0 else MonthLength(leap, month) + DaysFromMonth(leap, month + 1)
  }

  /** The proleptic Gregorian year, and the day within it, `day` days after 1 January of `year`. */
  function YearAndDay(day: nat, year: nat): (r: (nat, nat))
    ensures r.0 >= year && r.1 < YearLength(r.0)
    decreases day
  {
    if day < YearLength(year) then (year, day) else YearAndDay(day - YearLength(year), year + 1)
  }

  function MonthAndDay(day: nat, leap: bool, month: nat): (r: (nat, nat))
    requires 1 <= month <= 12 && day < DaysFromMonth(leap, month)
    ensures month <= r.0 <= 12 && 1 <= r.1 <= MonthLength(leap, r.0) <= 31
    decreases 12 - month
  {
    if day < MonthLength(leap, month) then (month, day + 1)
    else MonthAndDay(day - MonthLength(leap, month), leap, month + 1)
  }

  lemma YearIsItsMonths(leap: bool)
    ensures DaysFromMonth(leap, 1) == if leap then 366 else 365
  {
    assert DaysFromMonth(leap, 10) == 92;
    assert DaysFromMonth(leap, 7) == 184;
    assert DaysFromMonth(leap, 4) == 275;
  }

  /** Days since 1 January of year 0. */
  function DayNumber(t: Instant): int { t.sec / SECONDS_PER_DAY + EPOCH_DAY }

  /** Years 0000 to 9999, where the layout has exactly four year digits. */
  predicate FourDigitYear(t: Instant) { 0 <= DayNumber(t) < DAYS_BEFORE_YEAR_10000 }

  function DaysInYears(year: nat, k: nat): nat
    decreases k
  {
    if k == 0 then 0 else YearLength(year) + DaysInYears(year + 1, k - 1)
  }

  /** Leap days up to and including year - 1, in closed form. */
  function LeapsBefore(year: nat): int {
    (year + 3) / 4 - (year + 99) / 100 + (year + 399) / 400
  }

  /** A rounded-up quotient moves on past the multiples. */
  lemma QuotientStep(n: nat, d: nat)
    requires d > 0
    ensures (n + d) / d - (n + d - 1) / d == if n % d == 0 then 1 else 0
  {
    var q, r := n / d, n % d;
    assert (q + 1) * d == q * d + d;
    QuotientIs(n + d, d, q + 1, r);
    if r == 0 {
      QuotientIs(n + d - 1, d, q, d - 1);
    } else {
      QuotientIs(n + d - 1, d, q + 1, r - 1);
    }
  }

  lemma MultiplesOf(n: nat, d: nat, k: nat)
    requires d > 0 && k > 0 && k * d > 0
    ensures n % (k * d) == 0 ==> n % d == 0
  {
    if n % (k * d) == 0 {
      var q := n / (k * d);
      assert n == q * (k * d) == (q * k) * d;
      QuotientIs(n, d, q * k, 0);
    }
  }

  lemma LeapsBeforeStep(year: nat)
    ensures LeapsBefore(year + 1) == LeapsBefore(year) + if IsLeap(year) then 1 else 0
  {
    QuotientStep(year, 4);
    QuotientStep(year, 100);
    QuotientStep(year, 400);
    MultiplesOf(year, 4, 25);
    MultiplesOf(year, 100, 4);
  }

  lemma {:induction false} DaysInYearsClosedForm(year: nat, k: nat)
    ensures DaysInYears(year, k) == 365 * k + LeapsBefore(year + k) - LeapsBefore(year)
    decreases k
  {
    if k > 0 {
      DaysInYearsClosedForm(year + 1, k - 1);
      LeapsBeforeStep(year);
      assert year + 1 + (k - 1) == year + k;
    }
  }

  /** A day number before year 10000 has a four-digit year. */
  lemma {:induction false} YearBelow(day: nat, year: nat, limit: nat)
    requires year <= limit && day < DaysInYears(year, limit - year)
    ensures YearAndDay(day, year).0 < limit
    decreases day
  {
    if day >= YearLength(year) {
      YearBelow(day - YearLength(year), year + 1, limit);
    }
  }

  lemma FourDigitYearBound(t: Instant)
    requires FourDigitYear(t)
    ensures YearAndDay(DayNumber(t), 0).0 < 10_000
  {
    YearBelowCount(DayNumber(t), 10_000);
  }

  lemma YearBelowCount(day: nat, limit: nat)
    requires day < 365 * limit + LeapsBefore(limit) - LeapsBefore(0)
    ensures YearAndDay(day, 0).0 < limit
  {
    DaysInYearsClosedForm(0, limit);
    YearBelow(day, 0, limit);
  }

  /** Lexicographic order on equally long field lists. */
  predicate FieldsLess(a: seq<nat>, b: seq<nat>)
    requires |a| == |b|
  {
    a != [] && (a[0] < b[0] || (a[0] == b[0] && FieldsLess(a[1..], b[1..])))
  }

  /** A layout field: its digit width and the text that follows it. */
  datatype Field = Field(width: nat, suffix: string)

  predicate Fits(values: seq<nat>, layout: seq<Field>) {
    |values| == |layout| && forall i :: 0 <= i < |values| ==> values[i] < Pow10(layout[i].width)
  }

  function Print(values: seq<nat>, layout: seq<Field>): string
    requires Fits(values, layout)
  {
    if values == [] then ""
    else Pad(values[0], layout[0].width) + layout[0].suffix + Print(values[1..], layout[1..])
  }

  lemma FieldOrder(n: nat, m: nat, width: nat, suffix: string, rest: string, rest': string)
    requires n < Pow10(width) && m < Pow10(width)
    ensures Less(Pad(n, width) + suffix + rest, Pad(m, width) + suffix + rest') <==>
            n < m || (n == m && Less(rest, rest'))
  {
    PadOrder(n, m, width);
    LessByHead(suffix, rest, suffix, rest');
    LessIrreflexive(suffix);
    LessByHead(Pad(n, width), suffix + rest, Pad(m, width), suffix + rest');
    assert Pad(n, width) + suffix + rest == Pad(n, width) + (suffix + rest);
    assert Pad(m, width) + suffix + rest' == Pad(m, width) + (suffix + rest');
  }

  /** Padded fields print in their own lexicographic order. */
  lemma {:induction false} PrintOrder(a: seq<nat>, b: seq<nat>, layout: seq<Field>)
    requires Fits(a, layout) && Fits(b, layout)
    ensures Less(Print(a, layout), Print(b, layout)) <==> FieldsLess(a, b)
    decreases |a|
  {
    if a != [] {
      var w, s := layout[0].width, layout[0].suffix;
      var pa, pb := Pad(a[0], w), Pad(b[0], w);
      var ra, rb := Print(a[1..], layout[1..]), Print(b[1..], layout[1..]);
      PrintOrder(a[1..], b[1..], layout[1..]);
      FieldOrder(a[0], b[0], w, s, ra, rb);
      assert Print(a, layout) == pa + s + ra && Print(b, layout) == pb + s + rb;
    }
  }

  /** "2006-01-02T15:04:05.000000000Z". */
  const LAYOUT: seq<Field> :=
    [Field(4, "-"), Field(2, "-"), Field(2, "T"), Field(2, ":"), Field(2, ":"), Field(2, "."), Field(9, "Z")]

  /** The date part of the fields: year, month, day of month. */
  function Date(day: nat): (fields: seq<nat>)
    ensures |fields| == 3
  {
    var (year, d) := YearAndDay(day, 0);
    YearIsItsMonths(IsLeap(year));
    var (month, dayOfMonth) := MonthAndDay(d, IsLeap(year), 1);
    [year, month, dayOfMonth]
  }

  function TimeOfDay(second: nat, nanos: nat): (fields: seq<nat>)
    ensures |fields| == 4
  {
    [second / 3600, second / 60 % 60, second % 60, nanos]
  }

  function Civil(t: Instant): (fields: seq<nat>)
    requires FourDigitYear(t)
    ensures |fields| == 7
  {
    Date(DayNumber(t)) + TimeOfDay(t.sec % SECONDS_PER_DAY, t.nanos)
  }

  lemma CivilFits(t: Instant)
    requires FourDigitYear(t)
    ensures Fits(Civil(t), LAYOUT)
  {
    FourDigitYearBound(t);
    assert Pow10(2) == 100 && Pow10(4) == 10_000;
    assert Pow10(9) == 100_000 * Pow10(4);
  }

  /** formatTime. */
  function FormatTime(t: Instant): string
    requires FourDigitYear(t)
  {
    CivilFits(t);
    Print(Civil(t), LAYOUT)
  }

  lemma {:induction false} YearAndDayMonotone(d: nat, e: nat, year: nat)
    requires d < e
    ensures var (y, r) := YearAndDay(d, year); var (y', r') := YearAndDay(e, year);
            y < y' || (y == y' && r < r')
    decreases d
  {
    if d >= YearLength(year) {
      YearAndDayMonotone(d - YearLength(year), e - YearLength(year), year + 1);
    }
  }

  lemma {:induction false} MonthAndDayMonotone(d: nat, e: nat, leap: bool, month: nat)
    requires 1 <= month <= 12 && d < e < DaysFromMonth(leap, month)
    ensures var (m, r) := MonthAndDay(d, leap, month); var (m', r') := MonthAndDay(e, leap, month);
            m < m' || (m == m' && r < r')
    decreases 12 - month
  {
    if d >= MonthLength(leap, month) {
      MonthAndDayMonotone(d - MonthLength(leap, month), e - MonthLength(leap, month), leap, month + 1);
    }
  }

  lemma DateMonotone(d: nat, e: nat)
    requires d < e
    ensures FieldsLess(Date(d), Date(e))
  {
    YearAndDayMonotone(d, e, 0);
    var (y, r) := YearAndDay(d, 0);
    var (y', r') := YearAndDay(e, 0);
    var a, b := Date(d), Date(e);
    if y == y' {
      YearIsItsMonths(IsLeap(y));
      MonthAndDayMonotone(r, r', IsLeap(y), 1);
      FieldsLessThree(a, b);
    }
  }

  lemma FieldsLessThree(a: seq<nat>, b: seq<nat>)
    requires |a| == |b| == 3
    ensures FieldsLess(a, b) <==>
            a[0] < b[0] || (a[0] == b[0] && (a[1] < b[1] || (a[1] == b[1] && a[2] < b[2])))
  {
    assert a[1..][1..] == a[2..] && b[1..][1..] == b[2..];
    assert FieldsLess(a[1..], b[1..]) <==> a[1] < b[1] || (a[1] == b[1] && FieldsLess(a[2..], b[2..]));
    assert FieldsLess(a[2..], b[2..]) <==> a[2] < b[2];
  }

  lemma FieldsLessFour(a: seq<nat>, b: seq<nat>)
    requires |a| == |b| == 4
    ensures FieldsLess(a, b) <==>
            a[0] < b[0] || (a[0] == b[0] &&
              (a[1] < b[1] || (a[1] == b[1] && (a[2] < b[2] || (a[2] == b[2] && a[3] < b[3])))))
  {
    FieldsLessThree(a[1..], b[1..]);
  }

  lemma ClockArithmetic(s: nat, s': nat)
    ensures s < s' ==>
              s / 3600 < s' / 3600 || (s / 3600 == s' / 3600 &&
                (s / 60 % 60 < s' / 60 % 60 || (s / 60 % 60 == s' / 60 % 60 && s % 60 < s' % 60)))
  {
    assert s / 60 / 60 == s / 3600 && s' / 60 / 60 == s' / 3600;
    assert s == 60 * (s / 60) + s % 60 && s' == 60 * (s' / 60) + s' % 60;
    var m, m' := s / 60, s' / 60;
    assert m == 60 * (m / 60) + m % 60 && m' == 60 * (m' / 60) + m' % 60;
  }

  lemma TimeOfDayMonotone(s: nat, n: nat, s': nat, n': nat)
    requires s < s' || (s == s' && n < n')
    ensures FieldsLess(TimeOfDay(s, n), TimeOfDay(s', n'))
  {
    ClockArithmetic(s, s');
    FieldsLessFour(TimeOfDay(s, n), TimeOfDay(s', n'));
  }

  /** Heads decide; tails break ties. */
  lemma {:induction false} FieldsLessByHead(p: seq<nat>, a: seq<nat>, q: seq<nat>, b: seq<nat>)
    requires |p| == |q| && |a| == |b|
    ensures FieldsLess(p + a, q + b) <==> FieldsLess(p, q) || (p == q && FieldsLess(a, b))
    decreases |p|
  {
    if p == [] {
      assert p + a == a && q + b == b;
    } else {
      assert (p + a)[1..] == p[1..] + a && (q + b)[1..] == q[1..] + b;
      FieldsLessByHead(p[1..], a, q[1..], b);
      assert p == [p[0]] + p[1..] && q == [q[0]] + q[1..];
    }
  }

  /** The civil fields of an earlier instant come first. */
  lemma CivilMonotone(t: Instant, u: Instant)
    requires FourDigitYear(t) && FourDigitYear(u) && Before(t, u)
    ensures FieldsLess(Civil(t), Civil(u))
  {
    BeforeIsLexicographic(t, u);
    var d, s, d', s' := DayNumber(t), t.sec % SECONDS_PER_DAY, DayNumber(u), u.sec % SECONDS_PER_DAY;
    FieldsLessByHead(Date(d), TimeOfDay(s, t.nanos), Date(d'), TimeOfDay(s', u.nanos));
    if d < d' {
      DateMonotone(d, d');
    } else {
      TimeOfDayMonotone(s, t.nanos, s', u.nanos);
    }
  }

  /** Bytewise order of the padded layout is chronological order, for years 0000 to 9999. */
  lemma FormatTimeOrder(t: Instant, u: Instant)
    requires FourDigitYear(t) && FourDigitYear(u)
    ensures Less(FormatTime(t), FormatTime(u)) <==> Before(t, u)
  {
    CivilFits(t);
    CivilFits(u);
    PrintOrder(Civil(t), Civil(u), LAYOUT);
    if Before(t, u) {
      CivilMonotone(t, u);
    } else if Before(u, t) {
      CivilMonotone(u, t);
      PrintOrder(Civil(u), Civil(t), LAYOUT);
      if Less(FormatTime(t), FormatTime(u)) {
        LessTransitive(FormatTime(t), FormatTime(u), FormatTime(t));
        LessIrreflexive(FormatTime(t));
      }
    } else {
      BeforeIsLexicographic(t, u);
      BeforeIsLexicographic(u, t);
      LessIrreflexive(FormatTime(t));
    }
  }

  /** Distinct instants print differently, so a stored stamp names its instant. */
  lemma FormatTimeInjective(t: Instant, u: Instant)
    requires FourDigitYear(t) && FourDigitYear(u) && FormatTime(t) == FormatTime(u)
    ensures t == u
  {
    FormatTimeOrder(t, u);
    FormatTimeOrder(u, t);
    LessIrreflexive(FormatTime(t));
    BeforeIsLexicographic(t, u);
    BeforeIsLexicographic(u, t);
  }

  /** The first of January of any year is the day the leap-year rule counts to. */
  lemma FirstOfJanuary(year: nat)
    ensures YearAndDay(DaysInYears(0, year), 0) == (year, 0)
    ensures DaysInYears(0, year) == 365 * year + LeapsBefore(year) - LeapsBefore(0)
  {
    DaysInYearsClosedForm(0, year);
    YearAndDaySkip(DaysInYears(0, year), 0, year);
  }

  lemma EpochDay()
    ensures EPOCH_DAY == 365 * 1970 + LeapsBefore(1970) - LeapsBefore(0)
  {
  }

  lemma JanuaryIsReached(year: nat, day: nat)
    requires day == 365 * year + LeapsBefore(year) - LeapsBefore(0)
    ensures YearAndDay(day, 0) == (year, 0)
  {
    FirstOfJanuary(year);
  }

  /** Day zero of Unix time is the first of January of 1970. */
  lemma EpochIs1970()
    ensures YearAndDay(DayNumber(Instant(0, 0)), 0) == (1970, 0)
  {
    EpochDay();
    JanuaryIsReached(1970, EPOCH_DAY);
  }

  lemma {:induction false} YearAndDaySkip(day: nat, year: nat, k: nat)
    requires day >= DaysInYears(year, k)
    ensures YearAndDay(day, year) == YearAndDay(day - DaysInYears(year, k), year + k)
    decreases k
  {
    if k > 0 {
      YearAndDaySkip(day - YearLength(year), year + 1, k - 1);
    }
  }
}
