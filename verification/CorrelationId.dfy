/**
 The caller's correlation id (cmd/auth/logging.go): a header of any length becomes a bounded
 log attribute, cut between two code points and visibly so, and a stricter copy of it is
 forwarded. Text is a sequence of Unicode code points here and its UTF-8 bytes there.
 */
module CorrelationId {
  import Bytes

  const MAX_BYTES := 128
  const ELLIPSIS: nat := 0x2026

  // ---- UTF-8 (section 3 of RFC 3629) ---------------------------------------------

  predicate IsScalar(c: nat) { c <= 0x10FFFF && !(0xD800 <= c <= 0xDFFF) }

  type Text = t: seq<nat> | forall i :: 0 <= i < |t| ==> IsScalar(t[i])

  function EncodeRune(c: nat): (r: seq<nat>)
    requires IsScalar(c)
    ensures 1 <= |r| <= 4
    ensures RuneStart(r[0]) && forall i :: 0 < i < |r| ==> !RuneStart(r[i])
    ensures forall i :: 0 <= i < |r| ==> r[i] < 256
  {
    if c < 0x80 then [c]
    else if c < 0x800 then [0xC0 + c / 64, 0x80 + c % 64]
    else if c < 0x10000 then [0xE0 + c / 4096, 0x80 + c / 64 % 64, 0x80 + c % 64]
    else [0xF0 + c / 262144, 0x80 + c / 4096 % 64, 0x80 + c / 64 % 64, 0x80 + c % 64]
  }

  /** utf8.RuneStart: any byte but a continuation byte. */
  predicate RuneStart(b: nat) { !(0x80 <= b < 0xC0) }

  function Encode(t: Text): seq<nat> {
    if t == [] then [] else EncodeRune(t[0]) + Encode(t[1..])
  }

  /** How many code points the bytes of one take, read off its first byte. */
  function RuneLength(b: nat): nat { if b < 0x80 then 1 else if b < 0xE0 then 2 else if b < 0xF0 then 3 else 4 }

  function RuneOf(r: seq<nat>): int
    requires r != [] && |r| == RuneLength(r[0])
  {
    var b := seq(|r|, i requires 0 <= i < |r| => r[i] as int);
    if |b| == 1 then b[0]
    else if |b| == 2 then (b[0] - 0xC0) * 64 + (b[1] - 0x80)
    else if |b| == 3 then (b[0] - 0xE0) * 4096 + (b[1] - 0x80) * 64 + (b[2] - 0x80)
    else (b[0] - 0xF0) * 262144 + (b[1] - 0x80) * 4096 + (b[2] - 0x80) * 64 + (b[3] - 0x80)
  }

  lemma RuneRoundTrip(c: nat)
    requires IsScalar(c)
    ensures |EncodeRune(c)| == RuneLength(EncodeRune(c)[0]) && RuneOf(EncodeRune(c)) == c
  {
    assert c / 64 / 64 == c / 4096 && c / 4096 / 64 == c / 262144;
  }

  /** Distinct texts have distinct bytes, so a logged id names the code points it was cut from. */
  lemma {:induction false} EncodeInjective(t: Text, t': Text)
    requires Encode(t) == Encode(t')
    ensures t == t'
    decreases |t|
  {
    if t != [] && t' != [] {
      var r, r' := EncodeRune(t[0]), EncodeRune(t'[0]);
      RuneRoundTrip(t[0]);
      RuneRoundTrip(t'[0]);
      assert r[0] == Encode(t)[0] == Encode(t')[0] == r'[0];
      assert r == Encode(t)[..|r|] == r';
      assert Encode(t[1..]) == Encode(t)[|r|..];
      assert Encode(t'[1..]) == Encode(t')[|r|..];
      EncodeInjective(t[1..], t'[1..]);
      assert t == [t[0]] + t[1..] && t' == [t'[0]] + t'[1..];
    }
  }

  lemma {:induction false} EncodeAppend(a: Text, b: Text)
    ensures Encode(a + b) == Encode(a) + Encode(b)
    decreases |a|
  {
    if a == [] {
      assert a + b == b;
    } else {
      EncodeAppend(a[1..], b);
      assert (a + b)[1..] == a[1..] + b;
      Bytes.Associates(EncodeRune(a[0]), Encode(a[1..]), Encode(b));
    }
  }

  lemma EncodeOne(rune: nat)
    requires IsScalar(rune)
    ensures Encode([rune]) == EncodeRune(rune)
  {
    assert [rune][1..] == [];
    assert EncodeRune(rune) + [] == EncodeRune(rune);
  }

  lemma EncodeLast(t: Text)
    requires t != []
    ensures Encode(t) == Encode(t[..|t| - 1]) + EncodeRune(t[|t| - 1])
  {
    var k := |t| - 1;
    assert t == t[..k] + [t[k]];
    EncodeAppend(t[..k], [t[k]]);
    EncodeOne(t[k]);
  }

  lemma Nested(t: Text, j: nat, k: nat)
    requires j <= k <= |t|
    ensures t[..k][..j] == t[..j]
  {
  }

  /** The code point that byte `p` falls into. */
  lemma {:induction false} RuneAt(t: Text, p: nat) returns (k: nat)
    requires p < |Encode(t)|
    ensures k < |t| && |Encode(t[..k])| <= p < |Encode(t[..k + 1])|
    ensures Encode(t[..k + 1]) == Encode(t[..k]) + EncodeRune(t[k])
    ensures Encode(t[..k + 1]) <= Encode(t)
    decreases |t|
  {
    EncodeLast(t);
    var n := |t| - 1;
    if p < |Encode(t[..n])| {
      k := RuneAt(t[..n], p);
      Nested(t, k, n);
      Nested(t, k + 1, n);
    } else {
      k := n;
      assert t[..k + 1] == t;
    }
  }

  // ---- trimming --------------------------------------------------------------------

  /** unicode.IsSpace. */
  predicate IsSpace(c: nat) {
    || 9 <= c <= 13 || c == 0x20 || c == 0x85 || c == 0xA0 || c == 0x1680 || 0x2000 <= c <= 0x200A
    || c == 0x2028 || c == 0x2029 || c == 0x202F || c == 0x205F || c == 0x3000
  }

  function TrimSpace(t: Text): (r: Text)
    ensures r == [] || (!IsSpace(r[0]) && !IsSpace(r[|r| - 1]))
    decreases |t|
  {
    if t == [] then t
    else if IsSpace(t[0]) then TrimSpace(t[1..])
    else if IsSpace(t[|t| - 1]) then TrimSpace(t[..|t| - 1])
    else t
  }

  // ---- the log attribute --------------------------------------------------------------

  /** The truncating loop of loggableCorrelationID, on bytes that may or may not be UTF-8. */
  method Truncate(raw: seq<nat>) returns (out: seq<nat>)
    ensures |raw| <= MAX_BYTES ==> out == raw
    ensures |raw| > MAX_BYTES ==>
              exists cut :: 0 <= cut <= MAX_BYTES && LastStart(raw, cut) && out == raw[..cut] + EncodeRune(ELLIPSIS)
  {
    if |raw| <= MAX_BYTES {
      return raw;
    }
    var cut := MAX_BYTES;
    while cut > 0 && !RuneStart(raw[cut])
      invariant 0 <= cut <= MAX_BYTES
      invariant forall j :: cut < j <= MAX_BYTES ==> !RuneStart(raw[j])
    {
      cut := cut - 1;
    }
    assert LastStart(raw, cut);
    return raw[..cut] + EncodeRune(ELLIPSIS);
  }

  predicate LastStart(raw: seq<nat>, cut: nat) {
    && cut <= MAX_BYTES < |raw|
    && (cut == 0 || RuneStart(raw[cut]))
    && forall j :: cut < j <= MAX_BYTES ==> !RuneStart(raw[j])
  }

  /** The longest prefix of whole code points that fits the bound. */
  ghost predicate LongestFit(t: Text, k: int) {
    0 <= k < |t| && |Encode(t[..k])| <= MAX_BYTES < |Encode(t[..k + 1])|
  }

  /** Where the loop stops is where the last code point that does not fit begins. */
  lemma CutFallsBetweenRunes(t: Text, cut: nat) returns (k: nat)
    requires LastStart(Encode(t), cut)
    ensures LongestFit(t, k) && Encode(t)[..cut] == Encode(t[..k]) && MAX_BYTES - 3 <= cut
  {
    var raw := Encode(t);
    k := RuneAt(t, MAX_BYTES);
    var at, rune := |Encode(t[..k])|, EncodeRune(t[k]);
    assert forall j :: at <= j < at + |rune| ==> raw[j] == Encode(t[..k + 1])[j] == rune[j - at];
    assert RuneStart(raw[at]);
    assert forall j :: at < j <= MAX_BYTES ==> !RuneStart(raw[j]);
  }

  /**
   loggableCorrelationID on valid UTF-8: the trimmed id when it fits, else its longest
   prefix of whole code points, at most three bytes short of the bound, and an ellipsis.
   */
  method LoggableCorrelationId(raw: Text) returns (out: seq<nat>)
    ensures |Encode(TrimSpace(raw))| <= MAX_BYTES ==> out == Encode(TrimSpace(raw))
    ensures |Encode(TrimSpace(raw))| > MAX_BYTES ==>
              exists k :: LongestFit(TrimSpace(raw), k)
                          && out == Encode(TrimSpace(raw)[..k] + [ELLIPSIS])
                          && MAX_BYTES - 3 <= |Encode(TrimSpace(raw)[..k])| <= MAX_BYTES
  {
    var trimmed := TrimSpace(raw);
    var bytes := Encode(trimmed);
    out := Truncate(bytes);
    if |bytes| > MAX_BYTES {
      ghost var cut :| 0 <= cut <= MAX_BYTES && LastStart(bytes, cut) && out == bytes[..cut] + EncodeRune(ELLIPSIS);
      ghost var k := CutFallsBetweenRunes(trimmed, cut);
      EncodeAppend(trimmed[..k], [ELLIPSIS]);
      assert Encode([ELLIPSIS]) == EncodeRune(ELLIPSIS) + [];
      assert out == Encode(trimmed[..k] + [ELLIPSIS]);
    }
  }

  /** The longest fit is one place: every shorter prefix fits, every longer one does not. */
  lemma LongestFitIsLongest(t: Text, k: nat, j: nat)
    requires LongestFit(t, k) && j <= |t|
    ensures |Encode(t[..j])| <= MAX_BYTES <==> j <= k
  {
    if j <= k {
      assert t[..k] == t[..j] + t[j..k];
      EncodeAppend(t[..j], t[j..k]);
    } else {
      assert t[..j] == t[..k + 1] + t[k + 1..j];
      EncodeAppend(t[..k + 1], t[k + 1..j]);
    }
  }

  // ---- the forwarded header --------------------------------------------------------------

  /** forwardableCorrelationID: refused rather than repaired. */
  method ForwardableCorrelationId(raw: Text) returns (out: seq<nat>)
    ensures var bytes := Encode(TrimSpace(raw));
            if bytes != [] && |bytes| <= MAX_BYTES && forall i :: 0 <= i < |bytes| ==> 0x20 <= bytes[i] <= 0x7E
            then out == bytes else out == []
  {
    var bytes := Encode(TrimSpace(raw));
    if bytes == [] || |bytes| > MAX_BYTES {
      return [];
    }
    for i := 0 to |bytes|
      invariant forall j :: 0 <= j < i ==> 0x20 <= bytes[j] <= 0x7E
    {
      if bytes[i] < 0x20 || bytes[i] > 0x7E {
        return [];
      }
    }
    return bytes;
  }

  /** Whatever is forwarded is exactly what is logged, so the two sides' lines can be matched. */
  method LogAndForward(raw: Text) returns (logged: seq<nat>, forwarded: seq<nat>)
    ensures forwarded == [] || forwarded == logged
    ensures forwarded != [] ==> |forwarded| <= MAX_BYTES && forall i :: 0 <= i < |forwarded| ==> 0x20 <= forwarded[i] <= 0x7E
  {
    logged := LoggableCorrelationId(raw);
    forwarded := ForwardableCorrelationId(raw);
  }
}
