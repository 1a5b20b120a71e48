/**
 Time spans in the npm "ms" syntax (internal/config/duration.go): one sign, one decimal
 number, one optional unit. A span keeps the text it was written as, so a configuration
 document can be read and written back.
 */
module Durations {
  import opened Arithmetic
  import opened Bytes
  import opened Doubles

  const MILLISECOND := 1000000
  const SECOND := 1000 * MILLISECOND
  const MINUTE := 60 * SECOND
  const HOUR := 60 * MINUTE
  const DAY := 24 * HOUR

  /** msUnits: every spelling, in nanoseconds. */
  function UnitSpan(unit: string): Option<int> {
    if unit in ["", "ms", "msec", "msecs", "millisecond", "milliseconds"] then Some(MILLISECOND)
    else if unit in ["s", "sec", "secs", "second", "seconds"] then Some(SECOND)
    else if unit in ["m", "min", "mins", "minute", "minutes"] then Some(MINUTE)
    else if unit in ["h", "hr", "hrs", "hour", "hours"] then Some(HOUR)
    else if unit in ["d", "day", "days"] then Some(DAY)
    else if unit in ["w", "week", "weeks"] then Some(7 * DAY)
    else if unit in ["y", "year", "years"] then Some(365 * DAY)
    else None
  }

  // ---- the grammar ------------------------------------------------------------------

  /** A number as written: `point` tells "5." from "5". */
  datatype Number = Number(sign: string, whole: string, point: bool, fraction: string)

  function Written(n: Number): string { n.sign + n.whole + (if n.point then "." else "") + n.fraction }

  predicate WellFormed(n: Number) {
    && n.sign in ["", "+", "-"] && AllDigits(n.whole) && AllDigits(n.fraction) && (n.fraction != "" ==> n.point)
  }

  predicate HasDigit(n: Number) { n.whole + n.fraction != "" }

  /** ParseFloat finds a float64 for it. */
  predicate InRange(n: Number)
    requires WellFormed(n)
  {
    DigitsValue(n.whole) < FLOAT_LIMIT
  }

  /** 2^1024 - 2^970: from half a unit above the largest float64 on, ParseFloat reports a range error. */
  const FLOAT_LIMIT: int :=
    179769313486231580793728971405303415079934132710037826936173778980444968292764750946649017977587207096330286416692887910946555547851940402630657488671505820681908902000708383676273854845817711531764475730270069855571366959622842914819860834936475292719074168444365510704342711559699508093042880177904174497792

  /** `text` is exactly one term: a number, blanks, and a unit in any case. */
  ghost predicate OneTerm(text: string, n: Number, rest: string) {
    && text == Written(n) + rest
    && WellFormed(n) && HasDigit(n) && InRange(n)
    && UnitSpan(Lower(Trim(rest))).Some?
  }

  // ---- spans ----------------------------------------------------------------------------

  /**
   A span in nanoseconds; a conversion to int64 that is out of range has no value Go
   specifies, and a number with a fraction is left as it was written.
   */
  datatype Span = Nanos(n: int) | OutOfInt64 | OfFraction(number: Number, unit: int)

  function ToInt64(n: int): Span { if MIN_INT64 <= n <= MAX_INT64 then Nanos(n) else OutOfInt64 }

  function Signed(sign: string, n: nat): int { if sign == "-" then 0 - n as int else n as int }

  predicate ZeroFraction(n: Number) { forall i :: 0 <= i < |n.fraction| ==> n.fraction[i] == '0' }

  /** time.Duration(n * float64(span)). */
  function SpanOf(n: Number, unit: int): Span
    requires WellFormed(n)
  {
    if ZeroFraction(n) then ToInt64(RoundInt(RoundInt(Signed(n.sign, DigitsValue(n.whole))) * unit))
    else OfFraction(n, unit)
  }

  datatype Problem = EmptyValue | NoNumber | Unreadable | UnknownUnit | NotADuration

  datatype Parsed = Ok(span: Span) | Err(problem: Problem)

  // ---- the scanner ------------------------------------------------------------------------

  /** Where the run of digits from `i` on ends. */
  function DigitsEnd(t: string, i: nat): (k: nat)
    requires i <= |t|
    ensures i <= k <= |t| && AllDigits(t[i..k]) && (k < |t| ==> !IsDigit(t[k]))
    decreases |t| - i
  {
    if i < |t| && IsDigit(t[i]) then
      var k := DigitsEnd(t, i + 1);
      assert t[i..k] == [t[i]] + t[i + 1..k];
      k
    else i
  }

  function SignOf(t: string): (sign: string)
    ensures sign in ["", "+", "-"] && |sign| <= |t|
    ensures sign <= t
  {
    if t == "" then "" else if t[0] == '+' then "+" else if t[0] == '-' then "-" else ""
  }

  /** The number parseMS finds at the front of a trimmed text, and where it ends. */
  function Scan(t: string): (r: (Number, nat))
    ensures WellFormed(r.0) && r.1 <= |t|
  {
    var sign := SignOf(t);
    var mid := DigitsEnd(t, |sign|);
    var point := mid < |t| && t[mid] == '.';
    var end := if point then DigitsEnd(t, mid + 1) else mid;
    (Number(sign, t[|sign|..mid], point, if point then t[mid + 1..end] else ""), end)
  }

  lemma Adjoin(t: string, i: nat, j: nat)
    requires i <= j <= |t|
    ensures t[..i] + t[i..j] == t[..j] && t[..j] + t[j..] == t
  {
  }

  lemma PlainFront(t: string, n: Number, end: nat)
    requires |n.sign| <= end <= |t| && !n.point && n.fraction == ""
    requires n.sign == t[..|n.sign|] && n.whole == t[|n.sign|..end]
    ensures Written(n) == t[..end]
  {
    Adjoin(t, |n.sign|, end);
  }

  lemma PointFront(t: string, n: Number, mid: nat, end: nat)
    requires |n.sign| <= mid < end <= |t| && n.point && t[mid] == '.'
    requires n.sign == t[..|n.sign|] && n.whole == t[|n.sign|..mid] && n.fraction == t[mid + 1..end]
    ensures Written(n) == t[..end]
  {
    Adjoin(t, |n.sign|, mid);
    Adjoin(t, mid, mid + 1);
    Adjoin(t, mid + 1, end);
    assert t[mid..mid + 1] == ".";
  }

  lemma ScanCutsTheFront(t: string)
    ensures Written(Scan(t).0) == t[..Scan(t).1]
    ensures t == Written(Scan(t).0) + t[Scan(t).1..]
  {
    var sign := SignOf(t);
    var mid := DigitsEnd(t, |sign|);
    var (n, end) := Scan(t);
    if n.point {
      PointFront(t, n, mid, end);
    } else {
      PlainFront(t, n, end);
    }
    Adjoin(t, end, |t|);
  }

  function ParseSpec(s: string): Parsed {
    var t := Trim(s);
    if t == "" then Err(EmptyValue)
    else
      var (n, end) := Scan(t);
      if n.whole == "" && !n.point then Err(NoNumber)
      else if !HasDigit(n) || !InRange(n) then Err(Unreadable)
      else match UnitSpan(Lower(Trim(t[end..])))
        case None => Err(UnknownUnit)
        case Some(unit) => Ok(SpanOf(n, unit))
  }

  /** The two loops of parseMS. */
  method ScanNumber(trimmed: string) returns (number: Number, i: nat)
    requires trimmed != ""
    ensures (number, i) == Scan(trimmed)
  {
    i := 0;
    if trimmed[i] == '+' || trimmed[i] == '-' {
      i := i + 1;
    }
    var start := i;
    assert start == |SignOf(trimmed)|;
    while i < |trimmed| && IsDigit(trimmed[i])
      invariant start <= i <= |trimmed| && DigitsEnd(trimmed, i) == DigitsEnd(trimmed, start)
    {
      i := i + 1;
    }
    var mid := i;
    var point := i < |trimmed| && trimmed[i] == '.';
    if point {
      i := i + 1;
      while i < |trimmed| && IsDigit(trimmed[i])
        invariant mid < i <= |trimmed| && DigitsEnd(trimmed, i) == DigitsEnd(trimmed, mid + 1)
      {
        i := i + 1;
      }
    }
    assert SignOf(trimmed) == trimmed[..start];
    number := Number(trimmed[..start], trimmed[start..mid], point, if point then trimmed[mid + 1..i] else "");
  }

  /** parseMS. */
  method ParseMs(s: string) returns (r: Parsed)
    ensures r == ParseSpec(s)
  {
    var trimmed := Trim(s);
    if trimmed == "" {
      return Err(EmptyValue);
    }
    var number, end := ScanNumber(trimmed);
    if number.whole == "" && !number.point {
      return Err(NoNumber);
    }
    if !HasDigit(number) || !InRange(number) {
      return Err(Unreadable);
    }
    var unit := UnitSpan(Lower(Trim(trimmed[end..])));
    if unit.None? {
      return Err(UnknownUnit);
    }
    return Ok(SpanOf(number, unit.value));
  }

  // ---- what is accepted ---------------------------------------------------------------------

  /** No unit spelling holds a digit, a sign or a point. */
  lemma UnitsAreLetters(unit: string)
    requires UnitSpan(unit).Some?
    ensures forall c :: c in unit ==> 'a' <= c <= 'z'
  {
  }

  lemma {:induction false} TrimLeftKeeps(s: string, c: char)
    requires c in s && !IsSpace(c)
    ensures c in TrimLeft(s)
    decreases |s|
  {
    if s != "" && IsSpace(s[0]) {
      assert s == [s[0]] + s[1..];
      TrimLeftKeeps(s[1..], c);
    }
  }

  lemma {:induction false} TrimRightKeeps(s: string, c: char)
    requires c in s && !IsSpace(c)
    ensures c in TrimRight(s)
    decreases |s|
  {
    if s != "" && IsSpace(s[|s| - 1]) {
      assert s == s[..|s| - 1] + [s[|s| - 1]];
      TrimRightKeeps(s[..|s| - 1], c);
    }
  }

  predicate InNumber(c: char) { IsDigit(c) || c == '.' || c == '+' || c == '-' }

  lemma LowerHolds(s: string, c: char)
    requires c in s
    ensures LowerChar(c) in Lower(s)
  {
    var i :| 0 <= i < |s| && s[i] == c;
    assert Lower(s)[i] == LowerChar(c);
  }

  /** What follows the number of a term holds nothing a number is written with. */
  lemma RestHoldsNoNumber(rest: string, c: char)
    requires UnitSpan(Lower(Trim(rest))).Some? && c in rest
    ensures !InNumber(c)
  {
    if !IsSpace(c) {
      TrimLeftKeeps(rest, c);
      TrimRightKeeps(TrimLeft(rest), c);
      LowerHolds(Trim(rest), c);
      UnitsAreLetters(Lower(Trim(rest)));
    }
  }

  lemma {:induction false} DigitsEndIs(t: string, i: nat, k: nat)
    requires i <= k <= |t| && AllDigits(t[i..k]) && (k < |t| ==> !IsDigit(t[k]))
    ensures DigitsEnd(t, i) == k
    decreases k - i
  {
    if i < k {
      assert t[i..k][0] == t[i] && t[i + 1..k] == t[i..k][1..];
      DigitsEndIs(t, i + 1, k);
    }
  }

  lemma Prefixes(t: string, a: string, b: string)
    requires a + b <= t
    ensures a <= t && t[|a|..|a| + |b|] == b
  {
    assert forall i :: 0 <= i < |a + b| ==> t[i] == (a + b)[i];
  }

  lemma SignIsFound(t: string, sign: string)
    requires sign in ["", "+", "-"] && sign <= t && |sign| < |t| && (IsDigit(t[|sign|]) || t[|sign|] == '.')
    ensures SignOf(t) == sign
  {
    if sign != "" {
      assert t[0] == sign[0];
    }
  }

  /** Where the parts of a number stand in a text that begins with it. */
  lemma TermSlices(t: string, n: Number, rest: string)
    requires t == Written(n) + rest && WellFormed(n)
    ensures n.sign <= t && t[|n.sign|..|n.sign| + |n.whole|] == n.whole
    ensures n.point ==> t[|n.sign| + |n.whole|] == '.' && t[|n.sign| + |n.whole| + 1..|Written(n)|] == n.fraction
    ensures t[|Written(n)|..] == rest
  {
    var point := if n.point then "." else "";
    var mid := |n.sign| + |n.whole|;
    assert Written(n) <= t;
    Prefixes(t, n.sign + n.whole + point, n.fraction);
    Prefixes(t, n.sign + n.whole, point);
    Prefixes(t, n.sign, n.whole);
    assert n.point ==> t[mid..mid + 1] == ".";
  }

  /** A text begins with `n`, and goes on with nothing a number is written with. */
  ghost predicate Begins(t: string, n: Number, end: nat) {
    var start, mid := |n.sign|, |n.sign| + |n.whole|;
    && WellFormed(n) && HasDigit(n)
    && end == mid + (if n.point then 1 + |n.fraction| else 0) && end <= |t|
    && n.sign <= t && t[start..mid] == n.whole
    && (n.point ==> t[mid] == '.' && t[mid + 1..end] == n.fraction)
    && (end < |t| ==> !InNumber(t[end]))
  }

  lemma SignEnds(t: string, n: Number, end: nat)
    requires Begins(t, n, end)
    ensures SignOf(t) == n.sign
  {
    if n.whole != "" {
      assert t[|n.sign|] == n.whole[0];
    }
    SignIsFound(t, n.sign);
  }

  lemma WholeEnds(t: string, n: Number, end: nat)
    requires Begins(t, n, end)
    ensures DigitsEnd(t, |n.sign|) == |n.sign| + |n.whole|
  {
    DigitsEndIs(t, |n.sign|, |n.sign| + |n.whole|);
  }

  lemma FractionEnds(t: string, n: Number, end: nat)
    requires Begins(t, n, end) && n.point
    ensures DigitsEnd(t, |n.sign| + |n.whole| + 1) == end
  {
    DigitsEndIs(t, |n.sign| + |n.whole| + 1, end);
  }

  lemma ScanIsGreedy(t: string, n: Number, end: nat)
    requires Begins(t, n, end)
    ensures Scan(t) == (n, end)
  {
    SignEnds(t, n, end);
    WholeEnds(t, n, end);
    if n.point {
      FractionEnds(t, n, end);
    }
  }

  /** Greedy scanning finds the one way to read a text as a term. */
  lemma ScanFindsTheTerm(t: string, n: Number, rest: string)
    requires OneTerm(t, n, rest)
    ensures Scan(t) == (n, |Written(n)|) && t[|Written(n)|..] == rest && t != ""
  {
    var end := |Written(n)|;
    TermSlices(t, n, rest);
    if rest != "" {
      RestHoldsNoNumber(rest, rest[0]);
      assert t[end] == rest[0];
    }
    ScanIsGreedy(t, n, end);
  }

  /** parseMS accepts exactly the texts that are one term, and there is one way to read each. */
  lemma AcceptsExactlyOneTerm(s: string)
    ensures ParseSpec(s).Ok? <==> exists n, rest :: OneTerm(Trim(s), n, rest)
    ensures forall n, rest :: OneTerm(Trim(s), n, rest) ==>
              ParseSpec(s) == Ok(SpanOf(n, UnitSpan(Lower(Trim(rest))).value))
  {
    var t := Trim(s);
    forall n, rest | OneTerm(t, n, rest)
      ensures ParseSpec(s) == Ok(SpanOf(n, UnitSpan(Lower(Trim(rest))).value))
    {
      ScanFindsTheTerm(t, n, rest);
    }
    if ParseSpec(s).Ok? {
      ScanCutsTheFront(t);
      assert OneTerm(t, Scan(t).0, t[Scan(t).1..]);
    }
  }

  /** Compound spans are refused: after a number and anything else, no further digit is accepted. */
  lemma CompoundSpansAreRefused(s: string, i: nat, j: nat, k: nat)
    requires var t := Trim(s);
             i < j < k < |t| && IsDigit(t[i]) && !IsDigit(t[j]) && t[j] != '.' && IsDigit(t[k])
    ensures ParseSpec(s).Err?
  {
    var t := Trim(s);
    if ParseSpec(s).Ok? {
      AcceptsExactlyOneTerm(s);
      var n, rest :| OneTerm(t, n, rest);
      NumberIsOneRun(t, n, rest, i, j, k);
    }
  }

  lemma NumberIsOneRun(t: string, n: Number, rest: string, i: nat, j: nat, k: nat)
    requires OneTerm(t, n, rest) && i < j < k < |t| && IsDigit(t[i]) && IsDigit(t[k])
    ensures IsDigit(t[j]) || t[j] == '.'
  {
    var end := |Written(n)|;
    if k >= end {
      assert t[k] == rest[k - end];
      RestHoldsNoNumber(rest, t[k]);
    }
    assert t[j] == Written(n)[j] && t[i] == Written(n)[i];
  }

  // ---- a document read and written back --------------------------------------------------------

  datatype Value = Value(raw: string, span: Span, problem: Option<Problem>)

  const UNSET := Value("", Nanos(0), None)

  function FromText(s: string): Value {
    match ParseSpec(s) case Ok(span) => Value(s, span, None) case Err(p) => Value(s, Nanos(0), Some(p))
  }

  /** The JSON a duration knob may hold; an integer by its text. */
  datatype Json = Null | Text(s: string) | Integer(text: string) | Other(text: string)

  /** int64 multiplication wraps. */
  function Wrap64(n: int): int { (n - MIN_INT64) % 0x1_0000_0000_0000_0000 + MIN_INT64 }

  /** time.Duration(n) * time.Millisecond. */
  function MillisSpan(n: int): Span {
    match ToInt64(n) case Nanos(m) => Nanos(Wrap64(m * MILLISECOND)) case other => other
  }

  function Unmarshalled(v: Value, j: Json): Value {
    match j
    case Null => v
    case Text(s) => FromText(s)
    case Other(text) => Value(text, Nanos(0), Some(NotADuration))
    case Integer(text) =>
      match ParseInt(text)
      case Some(i) =>
        if FLOAT_LIMIT <= i || i <= 0 - FLOAT_LIMIT then Value(text, Nanos(0), Some(NotADuration))
        else Value(text, MillisSpan(RoundInt(i)), None)
      case None => Value(text, Nanos(0), Some(NotADuration))
  }

  /** MarshalJSON: the text the value was written as, always as a JSON string. */
  function Marshalled(v: Value): Json { Text(v.raw) }

  class Duration {
    var raw: string
    var span: Span
    var problem: Option<Problem>

    constructor ()
      ensures Held() == UNSET
    {
      raw, span, problem := "", Nanos(0), None;
    }

    ghost function Held(): Value
      reads this
    {
      Value(raw, span, problem)
    }

    /** UnmarshalJSON: never fails; what is wrong is kept for validation to report. */
    method UnmarshalJson(j: Json)
      modifies this
      ensures Held() == Unmarshalled(old(Held()), j)
    {
      match j
      case Null =>
      case Text(s) =>
        raw, span, problem := s, Nanos(0), None;
        var parsed := ParseMs(s);
        match parsed {
          case Ok(d) => span := d;
          case Err(p) => problem := Some(p);
        }
      case Integer(text) =>
        var n := ParseInt(text);
        if n.None? || FLOAT_LIMIT <= n.value || n.value <= 0 - FLOAT_LIMIT {
          raw, span, problem := text, Nanos(0), Some(NotADuration);
        } else {
          raw, span, problem := text, MillisSpan(RoundInt(n.value)), None;
        }
      case Other(text) =>
        raw, span, problem := text, Nanos(0), Some(NotADuration);
    }
  }

  /** A duration read from a string is the same duration after being written and read again. */
  lemma TextSurvives(v: Value, s: string)
    ensures Unmarshalled(v, Marshalled(Unmarshalled(v, Text(s)))) == Unmarshalled(v, Text(s))
  {
  }

  /** A knob nobody set does not survive: it comes back with an error. */
  lemma UnsetDoesNotSurvive()
    ensures UNSET.problem.None? && Unmarshalled(UNSET, Marshalled(UNSET)).problem == Some(EmptyValue)
  {
    assert Trim("") == "";
  }

  // ---- plain integers ---------------------------------------------------------------------------

  function Abs(i: int): nat { if i < 0 then 0 - i else i }

  /** The text of an integer is a term by itself, in milliseconds. */
  lemma IntegerIsATerm(text: string)
    requires ParseInt(text).Some? && Abs(ParseInt(text).value) < FLOAT_LIMIT
    ensures ParseSpec(text) == Ok(ToInt64(RoundInt(RoundInt(ParseInt(text).value) * MILLISECOND)))
  {
    var n := IntegerNumber(text);
    NothingToTrim(text);
    assert OneTerm(text, n, "") by {
      assert Lower(Trim("")) == "";
    }
    AcceptsExactlyOneTerm(text);
  }

  lemma IntegerNumber(text: string) returns (n: Number)
    requires ParseInt(text).Some?
    ensures WellFormed(n) && HasDigit(n) && ZeroFraction(n) && text == Written(n) + ""
    ensures ParseInt(text).value == Signed(n.sign, DigitsValue(n.whole)) && Abs(ParseInt(text).value) == DigitsValue(n.whole)
  {
    var sign := if text[0] == '-' then "-" else "";
    n := Number(sign, text[|sign|..], false, "");
    Adjoin(text, |sign|, |text|);
    assert text[..|text|] == text && text[..|sign|] == sign;
    assert Written(n) == text[..|sign|] + text[|sign|..|text|];
  }

  lemma NothingToTrim(text: string)
    requires ParseInt(text).Some?
    ensures Trim(text) == text
  {
    var last := text[|text| - 1];
    assert IsDigit(last) by {
      assert text[0] == '-' ==> last == text[1..][|text| - 2];
    }
  }

  lemma TermParses(s: string, n: Number, rest: string, unit: int)
    requires OneTerm(Trim(s), n, rest) && UnitSpan(Lower(Trim(rest))) == Some(unit)
    ensures ParseSpec(s) == Ok(SpanOf(n, unit))
  {
    AcceptsExactlyOneTerm(s);
    assert OneTerm(Trim(s), n, rest);
  }

  lemma UnitsAreMilliseconds(unit: string)
    requires UnitSpan(unit).Some?
    ensures UnitSpan(unit).value >= MILLISECOND
  {
  }

  predicate InInt64(n: int) { MIN_INT64 <= n <= MAX_INT64 }

  /** Within int64 or not, a product with a unit is. */
  lemma SmallEnough(i: int, unit: int)
    requires unit >= MILLISECOND && InInt64(i * unit)
    ensures -MAX_EXACT_INT <= i <= MAX_EXACT_INT
  {
    Multiple(unit - MILLISECOND + 1, Abs(i) + 1);
    assert (unit - MILLISECOND + 1) * (Abs(i) + 1) == unit * Abs(i) + unit - (MILLISECOND - 1) * (Abs(i) + 1);
    assert Abs(i * unit) == unit * Abs(i);
  }

  /** A whole number's span is exact, in any unit, exactly when its nanoseconds fit int64 and are representable. */
  lemma WholeSpanIsExactIff(s: string, n: Number, rest: string, i: int, unit: int)
    requires OneTerm(Trim(s), n, rest) && UnitSpan(Lower(Trim(rest))) == Some(unit)
    requires ZeroFraction(n) && i == Signed(n.sign, DigitsValue(n.whole))
    ensures ParseSpec(s) == Ok(Nanos(i * unit)) <==> InInt64(i * unit) && Representable(Abs(i * unit))
  {
    TermParses(s, n, rest, unit);
    UnitsAreMilliseconds(Lower(Trim(rest)));
    RoundedProduct(i, unit);
  }

  lemma RoundedProduct(i: int, unit: int)
    requires unit >= MILLISECOND
    ensures ToInt64(RoundInt(RoundInt(i) * unit)) == Nanos(i * unit) <==> InInt64(i * unit) && Representable(Abs(i * unit))
  {
    if InInt64(i * unit) {
      SmallEnough(i, unit);
      ExactUpToMax(i);
      ExactIffRepresentable(Abs(i * unit));
      assert RoundInt(i * unit) == Signed(if i * unit < 0 then "-" else "", RoundNat(Abs(i * unit)));
    }
  }

  lemma SixtyThreeBits()
    ensures Pow2(63) == 0x8000_0000_0000_0000 && Pow2(64) == 0x1_0000_0000_0000_0000
  {
    MaxExactIntIsPow2();
    Pow2Sum(10, 53);
    assert Pow2(10) == 1024;
    assert Pow2(64) == 2 * Pow2(63);
  }

  /** The first reading of an integer multiplies in int64: it is right exactly when the product fits. */
  lemma MillisAreRightIff(i: int)
    ensures MillisSpan(RoundInt(i)) == Nanos(i * MILLISECOND) <==> InInt64(i * MILLISECOND)
  {
    if InInt64(i * MILLISECOND) {
      ExactUpToMax(i);
    }
  }

  /** Beyond int64 the two readings of an integer never name one span. */
  lemma ReadingsDisagree(r: int)
    requires !InInt64(r * MILLISECOND) && MillisSpan(r).Nanos?
    ensures MillisSpan(r) != ToInt64(RoundInt(r * MILLISECOND))
  {
    WrapDisagrees(r * MILLISECOND);
  }

  lemma WrapDisagrees(n: int)
    requires !InInt64(n)
    ensures Nanos(Wrap64(n)) != ToInt64(RoundInt(n))
  {
    SixtyThreeBits();
    RoundingStaysAbove(Abs(n), 63);
    if Abs(n) >= 0x1_0000_0000_0000_0000 {
      RoundingStaysAbove(Abs(n), 64);
      assert ToInt64(RoundInt(n)) == OutOfInt64;
    } else if n < 0 {
      assert RoundInt(n) <= MIN_INT64 && Wrap64(n) == n + 0x1_0000_0000_0000_0000;
    } else {
      assert ToInt64(RoundInt(n)) == OutOfInt64;
    }
  }

  lemma RoundingKeepsTooLarge(i: int)
    requires !InInt64(i * MILLISECOND)
    ensures !InInt64(RoundInt(i) * MILLISECOND)
  {
    if -MAX_EXACT_INT <= i <= MAX_EXACT_INT {
      ExactUpToMax(i);
    } else {
      MaxExactIntIsPow2();
      RoundingStaysAbove(Abs(i), 53);
    }
  }

  /**
   A plain integer comes back as a quoted string, which is read through one more float
   multiplication: it means one span both times exactly when its nanoseconds fit int64 and a
   53-bit significand. Beyond int64 even the first reading is another span, and reports nothing.
   */
  lemma IntegerSurvivesIff(v: Value, text: string)
    requires ParseInt(text).Some?
    ensures var i := ParseInt(text).value;
            var read := Unmarshalled(v, Integer(text));
            var again := Unmarshalled(v, Marshalled(read));
            && read.raw == again.raw == text
            && (read.problem.None? <==> Abs(i) < FLOAT_LIMIT) && (again.problem.None? <==> Abs(i) < FLOAT_LIMIT)
            && (read == Value(text, Nanos(i * MILLISECOND), None) <==> InInt64(i * MILLISECOND))
            && (again == read && read.problem.None? && read.span.Nanos? <==>
                InInt64(i * MILLISECOND) && Representable(Abs(i * MILLISECOND)))
  {
    var i := ParseInt(text).value;
    var read := Unmarshalled(v, Integer(text));
    assert Unmarshalled(v, Marshalled(read)) == FromText(text);
    if Abs(i) < FLOAT_LIMIT {
      IntegerIsATerm(text);
      MillisAreRightIff(i);
      RoundedProduct(i, MILLISECOND);
      if !InInt64(i * MILLISECOND) && read.span.Nanos? {
        RoundingKeepsTooLarge(i);
        ReadingsDisagree(RoundInt(i));
      }
    } else {
      HugeIntegerIsRefused(text);
    }
  }

  lemma HugeIntegerIsRefused(text: string)
    requires ParseInt(text).Some? && Abs(ParseInt(text).value) >= FLOAT_LIMIT
    ensures ParseSpec(text) == Err(Unreadable)
  {
    var n := IntegerNumber(text);
    NothingToTrim(text);
    TermSlices(text, n, "");
    ScanIsGreedy(text, n, |Written(n)|);
  }

  /** Eighteen years of milliseconds, either way, always survive. */
  lemma EighteenYearsSurvive(i: int)
    requires -576460752303 <= i <= 576460752303
    ensures Representable(Abs(i * MILLISECOND))
  {
    var q := Abs(i) * 15625;
    assert Pow2(6) == 64;
    assert Scaled(Abs(i * MILLISECOND), q, 6);
  }

  /** Beyond them a span can come back changed. */
  lemma LaterSpansMayChange()
    ensures !Representable(576460752305 * MILLISECOND)
  {
    var n := 576460752305000000;
    assert Excess(n) == 7 by {
      assert Excess(n / 128) == 0;
      assert Excess(n / 64) == 1 + Excess(n / 64 / 2);
      assert Excess(n / 32) == 1 + Excess(n / 32 / 2);
      assert Excess(n / 16) == 1 + Excess(n / 16 / 2);
      assert Excess(n / 8) == 1 + Excess(n / 8 / 2);
      assert Excess(n / 4) == 1 + Excess(n / 4 / 2);
      assert Excess(n / 2) == 1 + Excess(n / 2 / 2);
    }
    assert Pow2(7) == 128;
    assert n % 128 == 64;
    ExactIffRepresentable(n);
  }
}
