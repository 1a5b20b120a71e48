/**
 The typo hint for unknown configuration keys (internal/config/load.go): an edit
 distance computed over two rolling rows, and the nearest defined key.
 */
module EditDistance {
  import opened Arithmetic
  import opened Bytes

  function Min3(a: nat, b: nat, c: nat): (m: nat)
    ensures m <= a && m <= b && m <= c && (m == a || m == b || m == c)
  {
    if a <= b && a <= c then a else if b <= c then b else c
  }

  /** The recurrence the rows fill in, on whole strings. */
  function Distance(a: string, b: string): nat
    decreases |a| + |b|
  {
    if a == "" then |b|
    else if b == "" then |a|
    else
      var a', b' := a[..|a| - 1], b[..|b| - 1];
      var cost := if a[|a| - 1] == b[|b| - 1] then 0 else 1;
      Min3(Distance(a', b) + 1, Distance(a, b') + 1, Distance(a', b') + cost)
  }

  /** The row for `a`: the distances from `a` to every prefix of `b`, as far as the row goes. */
  ghost predicate RowFor(row: seq<nat>, a: string, b: string) {
    |row| <= |b| + 1 && forall j :: 0 <= j < |row| ==> row[j] == Distance(a, b[..j])
  }

  /** editDistance: rows are overwritten in place and swapped after each character of `a`. */
  method Compute(a: string, b: string) returns (distance: nat)
    ensures distance == Distance(a, b)
  {
    var prev := new nat[|b| + 1];
    var cur := new nat[|b| + 1];
    var k := 0;
    while k <= |b|
      invariant 0 <= k <= |b| + 1
      invariant forall j :: 0 <= j < k ==> prev[j] == j
    {
      prev[k] := k;
      k := k + 1;
    }
    assert RowFor(prev[..], a[..0], b);
    var i := 1;
    while i <= |a|
      invariant 1 <= i <= |a| + 1
      invariant fresh(prev) && fresh(cur) && prev != cur && prev.Length == cur.Length == |b| + 1
      invariant RowFor(prev[..], a[..i - 1], b)
    {
      FillRow(prev, cur, a, b, i);
      prev, cur := cur, prev;
      i := i + 1;
    }
    assert a[..|a|] == a && b[..|b|] == b;
    return prev[|b|];
  }

  /** The inner loop: the row for one more character of `a`. */
  method FillRow(prev: array<nat>, cur: array<nat>, a: string, b: string, i: nat)
    requires prev != cur && prev.Length == cur.Length == |b| + 1 && 1 <= i <= |a|
    requires RowFor(prev[..], a[..i - 1], b)
    modifies cur
    ensures RowFor(cur[..], a[..i], b)
  {
    cur[0] := i;
    assert RowFor(cur[..1], a[..i], b) by { assert b[..0] == ""; }
    var j := 1;
    while j <= |b|
      invariant 1 <= j <= |b| + 1
      invariant RowFor(cur[..j], a[..i], b)
    {
      var cost := 1;
      if a[i - 1] == b[j - 1] {
        cost := 0;
      }
      RowGrows(prev[..], cur[..j], a, b, i, j);
      cur[j] := Min3(prev[j] + 1, cur[j - 1] + 1, prev[j - 1] + cost);
      assert cur[..j + 1] == cur[..j] + [cur[j]];
      j := j + 1;
    }
    assert cur[..j] == cur[..];
  }

  /** Each new entry extends the row. */
  lemma RowGrows(prev: seq<nat>, cur: seq<nat>, a: string, b: string, i: int, j: int)
    requires 1 <= i <= |a| && 1 <= j <= |b| && |prev| == |b| + 1 && |cur| == j
    requires RowFor(prev, a[..i - 1], b) && RowFor(cur, a[..i], b)
    ensures RowFor(cur + [Min3(prev[j] + 1, cur[j - 1] + 1, prev[j - 1] + if a[i - 1] == b[j - 1] then 0 else 1)], a[..i], b)
  {
    DistanceStep(a, b, i, j);
  }

  lemma DistanceStep(a: string, b: string, i: int, j: int)
    requires 1 <= i <= |a| && 1 <= j <= |b|
    ensures Distance(a[..i], b[..j]) ==
            Min3(Distance(a[..i - 1], b[..j]) + 1, Distance(a[..i], b[..j - 1]) + 1,
                 Distance(a[..i - 1], b[..j - 1]) + if a[i - 1] == b[j - 1] then 0 else 1)
  {
    assert a[..i][..i - 1] == a[..i - 1] && b[..j][..j - 1] == b[..j - 1];
  }

  // ---- what the number means ------------------------------------------------------

  /** An edit script, read left to right: keep, insert, delete or substitute one character at a time. */
  datatype Script =
    | Done
    | Keep(before: Script, c: char)
    | Insert(before: Script, c: char)
    | Delete(before: Script, c: char)
    | Substitute(before: Script, from: char, to: char)

  /** The string a script edits. */
  function Source(s: Script): string {
    match s
    case Done => ""
    case Keep(before, c) => Source(before) + [c]
    case Insert(before, _) => Source(before)
    case Delete(before, c) => Source(before) + [c]
    case Substitute(before, from, _) => Source(before) + [from]
  }

  /** The string it produces. */
  function Target(s: Script): string {
    match s
    case Done => ""
    case Keep(before, c) => Target(before) + [c]
    case Insert(before, c) => Target(before) + [c]
    case Delete(before, _) => Target(before)
    case Substitute(before, _, to) => Target(before) + [to]
  }

  function Cost(s: Script): nat {
    match s
    case Done => 0
    case Keep(before, _) => Cost(before)
    case Insert(before, _) => Cost(before) + 1
    case Delete(before, _) => Cost(before) + 1
    case Substitute(before, _, _) => Cost(before) + 1
  }

  function InsertAll(b: string): (s: Script)
    ensures Source(s) == "" && Target(s) == b && Cost(s) == |b|
  {
    if b == "" then Done
    else
      assert b == b[..|b| - 1] + [b[|b| - 1]];
      Insert(InsertAll(b[..|b| - 1]), b[|b| - 1])
  }

  function DeleteAll(a: string): (s: Script)
    ensures Source(s) == a && Target(s) == "" && Cost(s) == |a|
  {
    if a == "" then Done
    else
      assert a == a[..|a| - 1] + [a[|a| - 1]];
      Delete(DeleteAll(a[..|a| - 1]), a[|a| - 1])
  }

  /** Some script reaches the distance. */
  function BestScript(a: string, b: string): (s: Script)
    ensures Source(s) == a && Target(s) == b && Cost(s) == Distance(a, b)
    decreases |a| + |b|
  {
    if a == "" then InsertAll(b)
    else if b == "" then DeleteAll(a)
    else
      var a', x, b', y := a[..|a| - 1], a[|a| - 1], b[..|b| - 1], b[|b| - 1];
      assert a == a' + [x] && b == b' + [y];
      if Distance(a, b) == Distance(a', b) + 1 then Delete(BestScript(a', b), x)
      else if Distance(a, b) == Distance(a, b') + 1 then Insert(BestScript(a, b'), y)
      else if x == y then Keep(BestScript(a', b'), x)
      else Substitute(BestScript(a', b'), x, y)
  }

  lemma {:induction false} DistanceOneSided(a: string, c: char, b: string)
    ensures Distance(a + [c], b) <= Distance(a, b) + 1
    ensures Distance(a, b + [c]) <= Distance(a, b) + 1
    decreases |a| + |b|
  {
    assert (a + [c])[..|a|] == a && (b + [c])[..|b|] == b;
  }

  lemma DistanceDiagonal(a: string, x: char, b: string, y: char)
    ensures Distance(a + [x], b + [y]) <= Distance(a, b) + if x == y then 0 else 1
  {
    assert (a + [x])[..|a|] == a && (b + [y])[..|b|] == b;
  }

  /** No script is cheaper. */
  lemma {:induction false} NoCheaperScript(s: Script)
    ensures Distance(Source(s), Target(s)) <= Cost(s)
    decreases s
  {
    match s
    case Done =>
    case Keep(before, c) =>
      NoCheaperScript(before);
      DistanceDiagonal(Source(before), c, Target(before), c);
    case Insert(before, c) =>
      NoCheaperScript(before);
      DistanceOneSided(Source(before), c, Target(before));
    case Delete(before, c) =>
      NoCheaperScript(before);
      DistanceOneSided(Source(before), c, Target(before));
    case Substitute(before, from, to) =>
      NoCheaperScript(before);
      DistanceDiagonal(Source(before), from, Target(before), to);
  }

  /** The distance is the cost of a cheapest script between the two strings. */
  lemma DistanceIsShortestScript(a: string, b: string, n: nat)
    ensures Distance(a, b) <= n <==> exists s :: Source(s) == a && Target(s) == b && Cost(s) <= n
  {
    if Distance(a, b) <= n {
      var s := BestScript(a, b);
      assert Source(s) == a && Target(s) == b && Cost(s) <= n;
    }
    if s :| Source(s) == a && Target(s) == b && Cost(s) <= n {
      NoCheaperScript(s);
    }
  }

  /** Running a script backwards. */
  function Inverse(s: Script): (r: Script)
    ensures Source(r) == Target(s) && Target(r) == Source(s) && Cost(r) == Cost(s)
  {
    match s
    case Done => Done
    case Keep(before, c) => Keep(Inverse(before), c)
    case Insert(before, c) => Delete(Inverse(before), c)
    case Delete(before, c) => Insert(Inverse(before), c)
    case Substitute(before, from, to) => Substitute(Inverse(before), to, from)
  }

  lemma EmptySourceOnlyInserts(t: Script)
    ensures Source(t) == "" ==> t.Done? || t.Insert?
  {
  }

  /** Running one script and then another. */
  function Compose(s: Script, t: Script): (r: Script)
    requires Target(s) == Source(t)
    ensures Source(r) == Source(s) && Target(r) == Target(t) && Cost(r) <= Cost(s) + Cost(t)
    decreases s, t
  {
    if s.Delete? then Delete(Compose(s.before, t), s.c)
    else if t.Insert? then Insert(Compose(s, t.before), t.c)
    else if s.Done? then
      EmptySourceOnlyInserts(t);
      Done
    else
      // s ends by producing a character, which t ends by consuming.
      assert |Target(s)| > 0;
      assert !t.Done?;
      assert Target(s)[..|Target(s)| - 1] == Target(s.before);
      assert Source(t)[..|Source(t)| - 1] == Source(t.before);
      assert Target(s)[|Target(s)| - 1] == Source(t)[|Source(t)| - 1];
      var rest := Compose(s.before, t.before);
      match s
      case Insert(_, c) =>
        (match t
         case Keep(_, _) => Insert(rest, c)
         case Substitute(_, _, to) => Insert(rest, to)
         case _ => rest)
      case Keep(_, c) =>
        (match t
         case Keep(_, _) => Keep(rest, c)
         case Substitute(_, _, to) => Substitute(rest, c, to)
         case _ => Delete(rest, c))
      case Substitute(_, from, to) =>
        (match t
         case Keep(_, _) => Substitute(rest, from, to)
         case Substitute(_, _, to') => Substitute(rest, from, to')
         case _ => Delete(rest, from))
      case _ => rest
  }

  lemma ZeroCostKeepsAll(s: Script)
    requires Cost(s) == 0
    ensures Source(s) == Target(s)
  {
  }

  /** A metric: zero exactly on equal strings, symmetric, and obeying the triangle inequality. */
  lemma DistanceIsAMetric(a: string, b: string, c: string)
    ensures Distance(a, b) == 0 <==> a == b
    ensures Distance(a, b) == Distance(b, a)
    ensures Distance(a, c) <= Distance(a, b) + Distance(b, c)
  {
    if Distance(a, b) == 0 {
      ZeroCostKeepsAll(BestScript(a, b));
    }
    if a == b {
      NoCheaperScript(KeepAll(a));
    }
    NoCheaperScript(Inverse(BestScript(a, b)));
    NoCheaperScript(Inverse(BestScript(b, a)));
    NoCheaperScript(Compose(BestScript(a, b), BestScript(b, c)));
  }

  function KeepAll(a: string): (s: Script)
    ensures Source(s) == a && Target(s) == a && Cost(s) == 0
  {
    if a == "" then Done
    else
      assert a == a[..|a| - 1] + [a[|a| - 1]];
      Keep(KeepAll(a[..|a| - 1]), a[|a| - 1])
  }

  // ---- nearestHint --------------------------------------------------------------------

  function HintDistance(got: string, name: string): nat { Distance(Lower(got), Lower(name)) }

  /** The tolerance: a third of the longer of the two names, rounded up. */
  predicate NearEnough(got: string, name: string) {
    name != "" && HintDistance(got, name) <= (Max(|got|, |name|) + 2) / 3
  }

  predicate IsFirstNearest(got: string, names: seq<string>, i: nat) {
    && i < |names|
    && (forall j :: 0 <= j < i ==> HintDistance(got, names[i]) < HintDistance(got, names[j]))
    && (forall j :: i <= j < |names| ==> HintDistance(got, names[i]) <= HintDistance(got, names[j]))
  }

  /** The first of the names at the least distance. */
  function FirstNearest(got: string, names: seq<string>): (i: nat)
    requires names != []
    ensures IsFirstNearest(got, names, i)
    decreases |names|
  {
    var n := |names| - 1;
    if n == 0 then 0
    else
      var i := FirstNearest(got, names[..n]);
      assert forall j :: 0 <= j < n ==> names[..n][j] == names[j];
      if HintDistance(got, names[n]) < HintDistance(got, names[i]) then n else i
  }

  /** The hint, None for no hint: only the first nearest name is ever considered. */
  function HintOf(got: string, names: seq<string>): Option<string> {
    if names != [] && NearEnough(got, names[FirstNearest(got, names)]) then Some(names[FirstNearest(got, names)]) else None
  }

  lemma FirstNearestIsOne(got: string, names: seq<string>, i: nat)
    requires IsFirstNearest(got, names, i)
    ensures i == FirstNearest(got, names)
  {
    var f := FirstNearest(got, names);
    assert HintDistance(got, names[i]) <= HintDistance(got, names[f]) <= HintDistance(got, names[i]);
  }

  /** nearestHint, over the keys in the order sortedKeys gives them. */
  method NearestHint(got: string, names: seq<string>) returns (hint: Option<string>)
    ensures hint == HintOf(got, names)
  {
    var best, bestDist := "", -1;
    ghost var at := 0;
    for k := 0 to |names|
      invariant k == 0 ==> bestDist == -1 && best == ""
      invariant k > 0 ==> 0 <= at < k && best == names[at] && bestDist == HintDistance(got, best)
      invariant k > 0 ==> forall m :: 0 <= m < at ==> bestDist < HintDistance(got, names[m])
      invariant forall m :: at <= m < k ==> bestDist <= HintDistance(got, names[m])
    {
      var dist := Compute(Lower(got), Lower(names[k]));
      if bestDist < 0 || dist < bestDist {
        best, bestDist := names[k], dist;
        at := k;
      }
    }
    if names != [] {
      FirstNearestIsOne(got, names, at);
    }
    if best == "" {
      return None;
    }
    if bestDist > (Max(|got|, |best|) + 2) / 3 {
      return None;
    }
    return Some(best);
  }

  /** A hint is a key that is near enough, and no key is nearer. */
  lemma HintsAreNearest(got: string, names: seq<string>, n: string)
    requires HintOf(got, names).Some? && n in names
    ensures HintOf(got, names).value in names && NearEnough(got, HintOf(got, names).value)
    ensures HintDistance(got, HintOf(got, names).value) <= HintDistance(got, n)
  {
    var i := FirstNearest(got, names);
    var j :| 0 <= j < |names| && names[j] == n;
    assert IsFirstNearest(got, names, i);
  }

  /**
   A key that is near enough gets no hint exactly when the first nearest key, no farther away, is
   too short for its own tolerance; the key that is missed is then longer than both it and `got`.
   */
  lemma NearKeyIsMissedIff(got: string, names: seq<string>, n: string)
    requires n in names && NearEnough(got, n)
    ensures var first := names[FirstNearest(got, names)];
            && (HintOf(got, names).None? <==> first == "" || HintDistance(got, first) > (Max(|got|, |first|) + 2) / 3)
            && (HintOf(got, names).None? ==> |n| > |first| && (first != "" ==> |n| > |got|))
  {
    var i := FirstNearest(got, names);
    var j :| 0 <= j < |names| && names[j] == n;
    assert IsFirstNearest(got, names, i);
    assert HintDistance(got, names[i]) <= HintDistance(got, n);
  }

  /** The distance is at least the difference in length. */
  lemma {:induction false} CostCoversLengths(s: Script)
    ensures |Source(s)| - |Target(s)| <= Cost(s) && |Target(s)| - |Source(s)| <= Cost(s)
    decreases s
  {
    match s
    case Done =>
    case Keep(before, _) => CostCoversLengths(before);
    case Insert(before, _) => CostCoversLengths(before);
    case Delete(before, _) => CostCoversLengths(before);
    case Substitute(before, _, _) => CostCoversLengths(before);
  }

  lemma PrefixDistance(a: string, b: string)
    ensures Distance(a, a + b) == |b| && Distance(a + b, a) == |b|
  {
    CostCoversLengths(BestScript(a, a + b));
    NoCheaperScript(Extended(a, b));
    DistanceIsAMetric(a, a + b, a);
  }

  /** Keep everything, then insert the rest. */
  function Extended(a: string, b: string): (s: Script)
    ensures Source(s) == a && Target(s) == a + b && Cost(s) == |b|
    decreases |b|
  {
    if b == "" then
      assert a + b == a;
      KeepAll(a)
    else
      assert a + b == (a + b[..|b| - 1]) + [b[|b| - 1]];
      Insert(Extended(a, b[..|b| - 1]), b[|b| - 1])
  }

  /** Text that lower-casing leaves alone is at the distance of its lengths from each of its prefixes. */
  lemma PrefixHintDistance(a: string, b: string)
    requires Lower(a) == a && Lower(a + b) == a + b
    ensures HintDistance(a, a + b) == |b| && HintDistance(a + b, a) == |b|
  {
    PrefixDistance(a, b);
  }

  /** Of two keys equally near the first one is taken, and judged by its own tolerance. */
  lemma FirstOfTwo(got: string, short: string, long: string)
    requires HintDistance(got, short) == HintDistance(got, long)
    ensures HintOf(got, [short, long]) == if NearEnough(got, short) then Some(short) else None
  {
    var names := [short, long];
    assert names[0] == short && names[1] == long;
    FirstNearestIsOne(got, names, 0);
  }

  /** "aaa" gets no hint among "a" and "aaabb", although "aaabb" is near enough: "a" is as near, comes first, and is not. */
  lemma ANearKeyCanBeMissed()
    ensures NearEnough("aaa", "aaabb") && HintOf("aaa", ["a", "aaabb"]) == None
  {
    var got, short, long := "aaa", "a", "aaabb";
    assert "aaa" + "bb" == long && "a" + "aa" == got;
    assert HintDistance(got, short) == 2 by { PrefixHintDistance("a", "aa"); }
    assert HintDistance(got, long) == 2 by { PrefixHintDistance("aaa", "bb"); }
    FirstOfTwo(got, short, long);
  }
}
