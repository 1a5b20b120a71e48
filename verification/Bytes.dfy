/**
 Byte strings: the order DynamoDB sorts keys in, decimal text, ASCII case, and cutting a
 string at a separator. A `char` stands for one byte throughout the project.
 */
module Bytes {

  /** Between the segments of a key. */
  const SEP := '#'

  /** Bytewise (lexicographic) order, the order of DynamoDB sort keys. */
  predicate Less(a: string, b: string)
    decreases |a|
  {
    b != "" && (a == "" || a[0] < b[0] || (a[0] == b[0] && Less(a[1..], b[1..])))
  }

  lemma {:induction false} LessIrreflexive(a: string)
    ensures !Less(a, a)
    decreases |a|
  {
    if a != "" {
      LessIrreflexive(a[1..]);
    }
  }

  lemma {:induction false} LessTransitive(a: string, b: string, c: string)
    requires Less(a, b) && Less(b, c)
    ensures Less(a, c)
    decreases |a|
  {
    if a != "" && a[0] == b[0] && b[0] == c[0] {
      LessTransitive(a[1..], b[1..], c[1..]);
    }
  }

  lemma {:induction false} LessTotal(a: string, b: string)
    ensures Less(a, b) || a == b || Less(b, a)
    decreases |a|
  {
    if a != "" && b != "" && a[0] == b[0] {
      LessTotal(a[1..], b[1..]);
      assert a == [a[0]] + a[1..] && b == [b[0]] + b[1..];
    }
  }

  /** Equal-length heads decide the order; tails only break ties. */
  lemma {:induction false} LessByHead(p: string, a: string, q: string, b: string)
    requires |p| == |q|
    ensures Less(p + a, q + b) <==> Less(p, q) || (p == q && Less(a, b))
    decreases |p|
  {
    if p == "" {
      assert p + a == a && q + b == b;
    } else {
      assert (p + a)[1..] == p[1..] + a && (q + b)[1..] == q[1..] + b;
      LessByHead(p[1..], a, q[1..], b);
      assert p == [p[0]] + p[1..] && q == [q[0]] + q[1..];
    }
  }

  function Pow10(n: nat): (p: nat)
    ensures p >= 1
  {
    if n == 0 then 1 else 10 * Pow10(n - 1)
  }

  function Digit(d: nat): char
    requires d < 10
  {
    (('0' as int) + d) as char
  }

  predicate IsDigit(c: char) { '0' <= c <= '9' }

  /** `n` in exactly `width` decimal digits, zero-padded (%0*d). */
  function Pad(n: nat, width: nat): (s: string)
    requires n < Pow10(width)
    ensures |s| == width
    ensures forall i :: 0 <= i < |s| ==> IsDigit(s[i])
  {
    if width == 0 then "" else Pad(n / 10, width - 1) + [Digit(n % 10)]
  }

  /** The number a string of digits spells. */
  function DigitsValue(s: string): nat
    requires forall i :: 0 <= i < |s| ==> IsDigit(s[i])
  {
    if s == "" then 0
    else
      var last := s[|s| - 1];
      assert IsDigit(last);
      DigitsValue(s[..|s| - 1]) * 10 + (last as int - '0' as int)
  }

  lemma {:induction false} PadValue(n: nat, width: nat)
    requires n < Pow10(width)
    ensures DigitsValue(Pad(n, width)) == n
    decreases width
  {
    if width > 0 {
      PadValue(n / 10, width - 1);
      assert Pad(n, width)[..width - 1] == Pad(n / 10, width - 1);
    }
  }

  /** Fixed width makes bytewise order numeric order. */
  lemma {:induction false} PadOrder(n: nat, m: nat, width: nat)
    requires n < Pow10(width) && m < Pow10(width)
    ensures Less(Pad(n, width), Pad(m, width)) <==> n < m
    ensures Pad(n, width) == Pad(m, width) <==> n == m
    decreases width
  {
    PadValue(n, width);
    PadValue(m, width);
    if width > 0 {
      var p, q := Pad(n / 10, width - 1), Pad(m / 10, width - 1);
      PadOrder(n / 10, m / 10, width - 1);
      LessByHead(p, [Digit(n % 10)], q, [Digit(m % 10)]);
    }
  }

  /** strconv.FormatInt(n, 10). */
  function FormatNat(n: nat): (s: string)
    ensures s != "" && forall i :: 0 <= i < |s| ==> IsDigit(s[i])
  {
    if n < 10 then [Digit(n)] else FormatNat(n / 10) + [Digit(n % 10)]
  }

  lemma {:induction false} FormatNatValue(n: nat)
    ensures DigitsValue(FormatNat(n)) == n
    decreases n
  {
    var s := FormatNat(n);
    if n < 10 {
      assert s[..|s| - 1] == "";
    } else {
      FormatNatValue(n / 10);
      assert s[..|s| - 1] == FormatNat(n / 10);
    }
  }

  function FormatInt(i: int): (s: string)
    ensures s != ""
  {
    if i < 0 then "-" + FormatNat(-i) else FormatNat(i)
  }

  /** strconv.ParseInt restricted to optional '-' and digits; None otherwise. */
  function ParseInt(s: string): Option<int> {
    if s != "" && s[0] == '-' then
      if |s| > 1 && AllDigits(s[1..]) then
        var n := 0 - DigitsValue(s[1..]) as int;
        Some(n)
      else None
    else if s != "" && AllDigits(s) then Some(DigitsValue(s))
    else None
  }

  predicate AllDigits(s: string) {
    forall i :: 0 <= i < |s| ==> IsDigit(s[i])
  }

  lemma ParseDigits(s: string)
    requires s != "" && AllDigits(s)
    ensures ParseInt(s) == Some(DigitsValue(s))
    ensures ParseInt("-" + s) == Some(0 - DigitsValue(s) as int)
  {
    assert ("-" + s)[1..] == s;
    assert s[0] != '-';
  }

  lemma {:induction false} FormatIntParses(i: int)
    ensures ParseInt(FormatInt(i)) == Some(i)
    ensures '#' !in FormatInt(i)
  {
    var n: nat := if i < 0 then -i else i;
    FormatNatValue(n);
    ParseDigits(FormatNat(n));
  }

  datatype Option<+T> = None | Some(value: T)

  /** What a map holds for a key. */
  function At<K, V>(m: map<K, V>, k: K): Option<V> {
    if k in m then Some(m[k]) else None
  }

  /** strings.Cut: the text before and after the first separator. */
  function Cut(s: string, sep: char): (r: Option<(string, string)>)
    ensures r.Some? ==> s == r.value.0 + [sep] + r.value.1 && sep !in r.value.0
    ensures r.None? ==> sep !in s
    decreases |s|
  {
    if s == "" then None
    else if s[0] == sep then
      assert s == "" + [sep] + s[1..];
      Some(("", s[1..]))
    else match Cut(s[1..], sep)
      case None => None
      case Some(parts) =>
        assert s == ([s[0]] + parts.0) + [sep] + parts.1;
        Some(([s[0]] + parts.0, parts.1))
  }

  /** A separator-free head is recovered exactly, whatever the tail holds. */
  lemma {:induction false} CutJoined(head: string, tail: string, sep: char)
    requires sep !in head
    ensures Cut(head + [sep] + tail, sep) == Some((head, tail))
    decreases |head|
  {
    var s := head + [sep] + tail;
    if head == "" {
      assert s[1..] == tail;
    } else {
      assert s[1..] == head[1..] + [sep] + tail;
      CutJoined(head[1..], tail, sep);
      assert [head[0]] + head[1..] == head;
    }
  }

  /** Text before and after the last separator. */
  function CutLast(s: string, sep: char): (r: Option<(string, string)>)
    ensures r.Some? ==> s == r.value.0 + [sep] + r.value.1 && sep !in r.value.1
    ensures r.None? ==> sep !in s
    decreases |s|
  {
    if s == "" then None
    else
      var n := |s| - 1;
      if s[n] == sep then
        assert s == s[..n] + [sep] + "";
        Some((s[..n], ""))
      else match CutLast(s[..n], sep)
        case None => assert s == s[..n] + [s[n]]; None
        case Some(parts) =>
          assert s == parts.0 + [sep] + (parts.1 + [s[n]]);
          Some((parts.0, parts.1 + [s[n]]))
  }

  /** A separator-free tail is recovered exactly, whatever the head holds. */
  lemma {:induction false} CutLastJoined(head: string, tail: string, sep: char)
    requires sep !in tail
    ensures CutLast(head + [sep] + tail, sep) == Some((head, tail))
    decreases |tail|
  {
    var s := head + [sep] + tail;
    var n := |s| - 1;
    if tail == "" {
      assert s[..n] == head;
    } else {
      assert s[..n] == head + [sep] + tail[..|tail| - 1];
      CutLastJoined(head, tail[..|tail| - 1], sep);
      assert tail[..|tail| - 1] + [tail[|tail| - 1]] == tail;
    }
  }

  lemma Associates<T>(a: seq<T>, b: seq<T>, c: seq<T>)
    ensures a + b + c == a + (b + c)
  {
  }

  // ---- ASCII case and blanks --------------------------------------------------

  function LowerChar(c: char): char {
    if 'A' <= c <= 'Z' then (c as int + 32) as char else c
  }

  function Lower(s: string): (r: string)
    ensures |r| == |s|
  {
    seq(|s|, i requires 0 <= i < |s| => LowerChar(s[i]))
  }

  predicate IsSpace(c: char) {
    c == ' ' || c == '\t' || c == '\n' || c == '\r' || c == 11 as char || c == 12 as char
  }

  function TrimLeft(s: string): string {
    if s != "" && IsSpace(s[0]) then TrimLeft(s[1..]) else s
  }

  function TrimRight(s: string): string {
    if s != "" && IsSpace(s[|s| - 1]) then TrimRight(s[..|s| - 1]) else s
  }

  /** strings.TrimSpace on ASCII. */
  function Trim(s: string): string { TrimRight(TrimLeft(s)) }
}
