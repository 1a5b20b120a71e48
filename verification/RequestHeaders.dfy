/**
 Request headers (internal/lambdahttp/request.go): an event's header maps become one
 canonical header map. Where a gateway has comma-joined the lines of a header that may
 repeat, the configured headers are split apart again; the cookies array becomes one line.
 */
module RequestHeaders {
  import opened Bytes
  import opened Keys
  import opened Headers

  // ---- splitting and joining ---------------------------------------------------------

  /** strings.Split. */
  function Segments(s: string, sep: char): (r: seq<string>)
    ensures r != []
    decreases |s|
  {
    match Cut(s, sep)
    case None => [s]
    case Some(parts) => [parts.0] + Segments(parts.1, sep)
  }

  /** The segments that hold something, trimmed. */
  function Kept(segments: seq<string>): seq<string> {
    if segments == [] then []
    else
      var n := |segments| - 1;
      Kept(segments[..n]) + if Trim(segments[n]) == "" then [] else [Trim(segments[n])]
  }

  /** A value that survives being listed: not empty, no outer blanks, no separator inside. */
  predicate Listable(v: string, sep: char) { v != "" && Trim(v) == v && sep !in v }

  lemma {:induction false} TrimLeftShortens(s: string)
    ensures |TrimLeft(s)| <= |s| && (|TrimLeft(s)| == |s| ==> TrimLeft(s) == s)
    decreases |s|
  {
    if s != "" && IsSpace(s[0]) {
      TrimLeftShortens(s[1..]);
    }
  }

  lemma {:induction false} TrimRightShortens(s: string)
    ensures |TrimRight(s)| <= |s|
    decreases |s|
  {
    if s != "" && IsSpace(s[|s| - 1]) {
      TrimRightShortens(s[..|s| - 1]);
    }
  }

  /** One blank in front of a trimmed value trims off again. */
  lemma TrimBlank(v: string)
    requires Trim(v) == v
    ensures Trim(" " + v) == v
  {
    TrimLeftShortens(v);
    TrimRightShortens(TrimLeft(v));
    assert (" " + v)[1..] == v;
  }

  lemma {:induction false} KeptAppend(a: seq<string>, b: seq<string>)
    ensures Kept(a + b) == Kept(a) + Kept(b)
    decreases |b|
  {
    if b == [] {
      assert a + b == a;
    } else {
      var n := |b| - 1;
      assert (a + b)[..|a + b| - 1] == a + b[..n];
      KeptAppend(a, b[..n]);
    }
  }

  lemma KeptSnoc(segments: seq<string>, i: nat)
    requires i < |segments|
    ensures Kept(segments[..i + 1]) == if Trim(segments[i]) == "" then Kept(segments[..i]) else Kept(segments[..i]) + [Trim(segments[i])]
  {
    assert segments[..i + 1][..i] == segments[..i];
  }

  lemma KeptOne(v: string)
    ensures Kept([v]) == if Trim(v) == "" then [] else [Trim(v)]
  {
    assert [v][..0] == [];
    assert Kept([]) == [];
  }

  lemma FirstSegment(head: string, tail: string, sep: char)
    requires sep !in head
    ensures Segments(head + [sep] + tail, sep) == [head] + Segments(tail, sep)
  {
    CutJoined(head, tail, sep);
  }

  lemma OnlySegment(s: string, sep: char)
    requires sep !in s
    ensures Segments(s, sep) == [s]
  {
    assert Cut(s, sep).None?;
  }

  lemma KeptCons(head: string, rest: seq<string>, v: string)
    requires Trim(head) == v && v != ""
    ensures Kept([head] + rest) == [v] + Kept(rest)
  {
    KeptOne(head);
    KeptAppend([head], rest);
  }

  lemma Led(lead: string, v: string, sep: char)
    requires Listable(v, sep) && sep != ' ' && (lead == "" || lead == " ")
    ensures Trim(lead + v) == v && sep !in lead + v
  {
    TrimBlank(v);
    assert lead == "" ==> lead + v == v;
  }

  lemma JoinCons(values: seq<string>, glue: string, sep: char, pad: string, lead: string)
    requires |values| > 1 && glue == [sep] + pad
    ensures lead + Join(values, glue) == (lead + values[0]) + [sep] + (pad + Join(values[1..], glue))
  {
  }

  /** Splitting undoes joining: the lines come back one by one, whether the glue has a blank or not. */
  lemma {:induction false} SplitUndoesJoin(values: seq<string>, sep: char, pad: string, lead: string)
    requires values != [] && forall i :: 0 <= i < |values| ==> Listable(values[i], sep)
    requires sep != ' ' && (pad == "" || pad == " ") && (lead == "" || lead == " ")
    ensures Kept(Segments(lead + Join(values, [sep] + pad), sep)) == values
    decreases |values|
  {
    var v, rest := values[0], values[1..];
    Led(lead, v, sep);
    assert values == [v] + rest;
    if rest == [] {
      OnlySegment(lead + v, sep);
      KeptOne(lead + v);
    } else {
      var tail := pad + Join(rest, [sep] + pad);
      JoinCons(values, [sep] + pad, sep, pad, lead);
      FirstSegment(lead + v, tail, sep);
      SplitUndoesJoin(rest, sep, pad, pad);
      KeptCons(lead + v, Segments(tail, sep), v);
    }
  }

  // ---- event headers -----------------------------------------------------------------------

  /** The lines one event value stands for. */
  function LinesOf(key: string, value: string, split: set<string>): seq<string> {
    if key in split && ',' in value then Kept(Segments(value, ',')) else [value]
  }

  function AllLines(key: string, values: seq<string>, split: set<string>): seq<string> {
    if values == [] then [] else AllLines(key, values[..|values| - 1], split) + LinesOf(key, values[|values| - 1], split)
  }

  lemma AllLinesSnoc(key: string, values: seq<string>, j: nat, split: set<string>)
    requires j < |values|
    ensures AllLines(key, values[..j + 1], split) == AllLines(key, values[..j], split) + LinesOf(key, values[j], split)
  {
    assert values[..j + 1][..j] == values[..j];
  }

  /** Outside the split set no value is touched. */
  lemma {:induction false} UnsplitLinesAreKept(key: string, values: seq<string>, split: set<string>)
    requires key !in split
    ensures AllLines(key, values, split) == values
    decreases |values|
  {
    if values != [] {
      UnsplitLinesAreKept(key, values[..|values| - 1], split);
      assert values == values[..|values| - 1] + [values[|values| - 1]];
    }
  }

  /** A configured header that a gateway comma-joined is the list of lines the client sent. */
  lemma JoinedLinesComeBack(key: string, lines: seq<string>, split: set<string>)
    requires key in split && lines != [] && forall i :: 0 <= i < |lines| ==> Listable(lines[i], ',')
    ensures LinesOf(key, Join(lines, ","), split) == lines
  {
    SplitUndoesJoin(lines, ',', "", "");
    assert [','] + "" == ",";
    assert "" + Join(lines, ",") == Join(lines, ",");
    if |lines| == 1 {
      assert lines == [lines[0]];
    } else {
      assert Join(lines, ",")[|lines[0]|] == ',';
    }
  }

  /** The canonical header of an event: for each name, the lines of every spelling of it, in key order. */
  function EventLines(multi: HeaderMap, keys: seq<string>, c: string, split: set<string>): seq<string>
    requires forall k :: k in keys ==> k in multi
  {
    if keys == [] then []
    else
      var n := |keys| - 1;
      assert forall k :: k in keys[..n] ==> k in keys;
      EventLines(multi, keys[..n], c, split) + if Canonical(keys[n]) == c then AllLines(c, multi[keys[n]], split) else []
  }

  /** With nothing to split, the request carries exactly the event's values. */
  lemma {:induction false} EventLinesAreTheValues(multi: HeaderMap, keys: seq<string>, c: string, split: set<string>)
    requires forall k :: k in keys ==> k in multi
    requires c !in split
    ensures EventLines(multi, keys, c, split) == ValuesOf(multi, keys, c)
    decreases |keys|
  {
    if keys != [] {
      var n := |keys| - 1;
      assert forall k :: k in keys[..n] ==> k in keys;
      EventLinesAreTheValues(multi, keys[..n], c, split);
      UnsplitLinesAreKept(c, multi[keys[n]], split);
    }
  }

  function LinesAt(h: HeaderMap, key: string): seq<string> { if key in h then h[key] else [] }

  class RequestHeader {
    var lines: HeaderMap

    constructor ()
      ensures lines == map[]
    {
      lines := map[];
    }

    method AppendParts(key: string, segments: seq<string>)
      modifies this`lines
      ensures LinesAt(lines, key) == LinesAt(old(lines), key) + Kept(segments)
      ensures forall c :: c != key ==> LinesAt(lines, c) == LinesAt(old(lines), c)
    {
      ghost var start, kept: seq<string> := LinesAt(lines, key), [];
      for i := 0 to |segments|
        invariant kept == Kept(segments[..i]) && LinesAt(lines, key) == start + kept
        invariant forall c :: c != key ==> LinesAt(lines, c) == LinesAt(old(lines), c)
      {
        KeptSnoc(segments, i);
        var part := Trim(segments[i]);
        if part == "" {
          continue;
        }
        Associates(start, kept, [part]);
        kept := kept + [part];
        lines := lines[key := LinesAt(lines, key) + [part]];
      }
      assert segments[..|segments|] == segments;
    }

    /** appendHeaderValue. */
    method AppendValue(key: string, value: string, split: set<string>)
      modifies this`lines
      ensures LinesAt(lines, key) == LinesAt(old(lines), key) + LinesOf(key, value, split)
      ensures forall c :: c != key ==> LinesAt(lines, c) == LinesAt(old(lines), c)
    {
      if key in split && ',' in value {
        AppendParts(key, Segments(value, ','));
        return;
      }
      lines := lines[key := LinesAt(lines, key) + [value]];
    }

    /** headerFromEventMaps on the multi-value map. */
    method FromMultiValues(multi: HeaderMap, split: set<string>) returns (ghost order: seq<string>)
      requires lines == map[]
      modifies this`lines
      ensures SortedKeys(order, multi.Keys)
      ensures forall c :: LinesAt(lines, c) == EventLines(multi, order, c, split)
    {
      var keys := Sorted(multi.Keys);
      order := keys;
      for i := 0 to |keys|
        invariant forall k :: k in keys[..i] ==> k in multi
        invariant forall c :: LinesAt(lines, c) == EventLines(multi, keys[..i], c, split)
      {
        assert keys[i] in keys;
        assert keys[..i + 1][..i] == keys[..i] && keys[..i + 1][i] == keys[i];
        AppendAll(Canonical(keys[i]), multi[keys[i]], split);
      }
      assert keys[..|keys|] == keys;
    }

    method AppendAll(key: string, values: seq<string>, split: set<string>)
      modifies this`lines
      ensures LinesAt(lines, key) == LinesAt(old(lines), key) + AllLines(key, values, split)
      ensures forall c :: c != key ==> LinesAt(lines, c) == LinesAt(old(lines), c)
    {
      ghost var start, added: seq<string> := LinesAt(lines, key), [];
      for j := 0 to |values|
        invariant added == AllLines(key, values[..j], split) && LinesAt(lines, key) == start + added
        invariant forall c :: c != key ==> LinesAt(lines, c) == LinesAt(old(lines), c)
      {
        AllLinesSnoc(key, values, j, split);
        AppendValue(key, values[j], split);
        ghost var more := LinesOf(key, values[j], split);
        Associates(start, added, more);
        added := added + more;
      }
      assert values[..|values|] == values;
    }

    /** The loop of addCookieHeader: what is there first, then every cookie that is not blank. */
    static method KeepParts(first: string, cookies: seq<string>) returns (parts: seq<string>)
      ensures parts == Kept([first] + cookies)
    {
      var existing := Trim(first);
      parts := if existing != "" then [existing] else [];
      KeptOne(first);
      ghost var all := [first] + cookies;
      assert all[..1] == [first];
      for i := 0 to |cookies|
        invariant parts == Kept(all[..i + 1])
      {
        KeptSnoc(all, i + 1);
        var c := Trim(cookies[i]);
        if c == "" {
          continue;
        }
        parts := parts + [c];
      }
      assert all[..|cookies| + 1] == all;
    }

    /** addCookieHeader: one Cookie line, what was there first, then the array in order. */
    method AddCookies(cookies: seq<string>)
      modifies this`lines
      ensures var first := if LinesAt(old(lines), "Cookie") == [] then "" else LinesAt(old(lines), "Cookie")[0];
              var parts := Kept([first] + cookies);
              lines == if parts == [] then old(lines) else old(lines)["Cookie" := [Join(parts, "; ")]]
    {
      var first := if LinesAt(lines, "Cookie") == [] then "" else LinesAt(lines, "Cookie")[0];
      var parts := KeepParts(first, cookies);
      if parts == [] {
        return;
      }
      lines := lines["Cookie" := [Join(parts, "; ")]];
    }
  }

  /** A server that splits the Cookie line at ';' finds every cookie of the array, in order. */
  lemma CookiesComeBack(cookies: seq<string>)
    requires cookies != [] && forall i :: 0 <= i < |cookies| ==> Listable(cookies[i], ';')
    ensures Kept(Segments(Join(Kept([""] + cookies), "; "), ';')) == cookies
  {
    AllCookiesKept(cookies);
    SplitUndoesJoin(cookies, ';', " ", "");
    Glue(cookies);
  }

  lemma Glue(cookies: seq<string>)
    ensures [';'] + " " == "; " && "" + Join(cookies, "; ") == Join(cookies, "; ")
  {
  }

  lemma AllCookiesKept(cookies: seq<string>)
    requires forall i :: 0 <= i < |cookies| ==> Listable(cookies[i], ';')
    ensures Kept([""] + cookies) == cookies
  {
    KeptAppend([""], cookies);
    KeptOne("");
    KeptListable(cookies);
  }

  lemma {:induction false} KeptListable(values: seq<string>)
    requires forall i :: 0 <= i < |values| ==> Listable(values[i], ';')
    ensures Kept(values) == values
    decreases |values|
  {
    if values != [] {
      var n := |values| - 1;
      KeptListable(values[..n]);
      assert values == values[..n] + [values[n]];
    }
  }
}
