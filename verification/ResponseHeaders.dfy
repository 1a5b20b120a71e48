/**
 Response rendering (internal/lambdahttp/response.go): one recorded header map becomes the
 maps and arrays each kind of event response has room for. Nothing may be lost, joined or
 reordered on the way, cookies least of all.
 */
module ResponseHeaders {
  import opened Bytes
  import opened Headers

  const SET_COOKIE := "Set-Cookie"

  /** What the client must receive: every value under its canonical name, in key order. */
  ghost predicate IsContent(content: HeaderMap, h: HeaderMap) {
    forall order :: SortedKeys(order, h.Keys) ==> ContentIn(content, h, order)
  }

  ghost predicate ContentIn(content: HeaderMap, h: HeaderMap, order: seq<string>)
    requires SortedKeys(order, h.Keys)
  {
    forall c ::
      && (c in content <==> ValuesOf(h, order, c) != [])
      && (c in content ==> content[c] == ValuesOf(h, order, c))
  }

  // ---- splitSetCookie -----------------------------------------------------------------

  /** splitSetCookie: cookies apart from the rest, both in key order and under canonical names. */
  method SplitSetCookie(h: HeaderMap) returns (cookies: seq<string>, rest: HeaderMap, ghost order: seq<string>)
    ensures SortedKeys(order, h.Keys)
    ensures cookies == ValuesOf(h, order, SET_COOKIE)
    ensures SET_COOKIE !in rest
    ensures forall c :: c in rest ==> rest[c] == ValuesOf(h, order, c)
    ensures forall c :: c !in rest && c != SET_COOKIE ==> ValuesOf(h, order, c) == []
  {
    rest := map[];
    cookies := [];
    var keys := Sorted(h.Keys);
    order := keys;
    for i := 0 to |keys|
      invariant forall k :: k in keys[..i] ==> k in h
      invariant cookies == ValuesOf(h, keys[..i], SET_COOKIE)
      invariant SET_COOKIE !in rest
      invariant forall c :: c in rest ==> rest[c] == ValuesOf(h, keys[..i], c)
      invariant forall c :: c !in rest && c != SET_COOKIE ==> ValuesOf(h, keys[..i], c) == []
    {
      var k := keys[i];
      assert k in keys;
      assert keys[..i + 1][..i] == keys[..i] && keys[..i + 1][i] == k;
      var key := Canonical(k);
      if key == SET_COOKIE {
        cookies := cookies + h[k];
      } else {
        rest := rest[key := (if key in rest then rest[key] else []) + h[k]];
      }
    }
    assert keys[..|keys|] == keys;
  }

  // ---- the renderings ---------------------------------------------------------------------

  /** multiValueHeaderMap: an array for every header that has a value. */
  method MultiValueHeaderMap(h: HeaderMap, cookies: seq<string>) returns (out: HeaderMap)
    requires SET_COOKIE !in h
    ensures forall c :: c in out <==> (c in h && h[c] != []) || (c == SET_COOKIE && cookies != [])
    ensures forall c :: c in out ==> out[c] == if c == SET_COOKIE then cookies else h[c]
  {
    out := map[];
    var keys := Sorted(h.Keys);
    for i := 0 to |keys|
      invariant forall c :: c in out <==> c in keys[..i] && h[c] != []
      invariant forall c :: c in out ==> out[c] == h[c]
    {
      assert keys[i] in keys;
      if h[keys[i]] != [] {
        out := out[keys[i] := h[keys[i]]];
      }
    }
    assert keys[..|keys|] == keys;
    if cookies != [] {
      out := out[SET_COOKIE := cookies];
    }
  }

  /** splitHeaderMaps: each header in exactly one of REST's two maps, cookies always as an array. */
  method SplitHeaderMaps(h: HeaderMap, cookies: seq<string>) returns (single: map<string, string>, multi: HeaderMap)
    requires SET_COOKIE !in h
    ensures single.Keys !! multi.Keys
    ensures forall c :: c in single <==> c in h && |h[c]| == 1
    ensures forall c :: c in single ==> h[c] == [single[c]]
    ensures forall c :: c in multi <==> (c in h && |h[c]| > 1) || (c == SET_COOKIE && cookies != [])
    ensures forall c :: c in multi ==> multi[c] == if c == SET_COOKIE then cookies else h[c]
  {
    single, multi := map[], map[];
    var keys := Sorted(h.Keys);
    for i := 0 to |keys|
      invariant forall c :: c in single <==> c in keys[..i] && |h[c]| == 1
      invariant forall c :: c in single ==> h[c] == [single[c]]
      invariant forall c :: c in multi <==> c in keys[..i] && |h[c]| > 1
      invariant forall c :: c in multi ==> multi[c] == h[c]
    {
      assert keys[i] in keys;
      var values := h[keys[i]];
      if |values| == 1 {
        assert values == [values[0]];
        single := single[keys[i] := values[0]];
      } else if |values| > 1 {
        multi := multi[keys[i] := values];
      }
    }
    assert keys[..|keys|] == keys;
    if cookies != [] {
      multi := multi[SET_COOKIE := cookies];
    }
  }

  /** singleHeaderMap: one slot per name, refused as soon as anything would need two. */
  method SingleHeaderMap(h: HeaderMap, cookies: seq<string>) returns (out: Option<map<string, string>>)
    requires SET_COOKIE !in h
    ensures out.Some? <==> |cookies| <= 1 && forall c :: c in h ==> |h[c]| <= 1
    ensures out.Some? ==> forall c :: c in out.value <==> (c in h && h[c] != []) || (c == SET_COOKIE && cookies != [])
    ensures out.Some? ==> forall c :: c in out.value ==> [out.value[c]] == if c == SET_COOKIE then cookies else h[c]
  {
    var single: map<string, string> := map[];
    var keys := Sorted(h.Keys);
    for i := 0 to |keys|
      invariant forall c :: c in single <==> c in keys[..i] && h[c] != []
      invariant forall c :: c in single ==> [single[c]] == h[c]
      invariant forall c :: c in keys[..i] ==> |h[c]| <= 1
    {
      assert keys[i] in keys;
      var values := h[keys[i]];
      if |values| > 1 {
        return None;
      }
      if |values| == 1 {
        assert values == [values[0]];
        single := single[keys[i] := values[0]];
      }
    }
    assert keys[..|keys|] == keys;
    if |cookies| > 1 {
      return None;
    }
    if |cookies| == 1 {
      assert cookies == [cookies[0]];
      single := single[SET_COOKIE := cookies[0]];
    }
    return Some(single);
  }

  // ---- nothing is lost ------------------------------------------------------------------------

  /** What a client reads from REST's two maps, which the gateway merges. */
  ghost function Merged(single: map<string, string>, multi: HeaderMap): HeaderMap {
    map c | c in single.Keys + multi.Keys :: if c in multi then multi[c] else [single[c]]
  }

  ghost function AsLists(single: map<string, string>): HeaderMap {
    map c | c in single :: [single[c]]
  }

  /** The REST rendering: disjoint maps, cookies as an array, and together exactly what the handler recorded. */
  method RenderRest(h: HeaderMap) returns (single: map<string, string>, multi: HeaderMap)
    ensures IsContent(Merged(single, multi), h)
    ensures single.Keys !! multi.Keys && SET_COOKIE !in single
  {
    var cookies, rest, order := SplitSetCookie(h);
    single, multi := SplitHeaderMaps(rest, cookies);
    ContentIsSettled(Merged(single, multi), h, order);
  }

  /** The multi-value ALB rendering is exactly what the handler recorded. */
  method RenderAlbMulti(h: HeaderMap) returns (out: HeaderMap)
    ensures IsContent(out, h)
  {
    var cookies, rest, order := SplitSetCookie(h);
    out := MultiValueHeaderMap(rest, cookies);
    ContentIsSettled(out, h, order);
  }

  /** The single-value ALB rendering succeeds exactly when no name repeats, and then loses nothing. */
  method RenderAlbSingle(h: HeaderMap) returns (out: Option<map<string, string>>)
    ensures out.Some? ==> IsContent(AsLists(out.value), h)
    ensures out.Some? <==> forall order, c :: SortedKeys(order, h.Keys) ==> |ValuesOf(h, order, c)| <= 1
  {
    var cookies, rest, order := SplitSetCookie(h);
    out := SingleHeaderMap(rest, cookies);
    if out.Some? {
      ContentIsSettled(AsLists(out.value), h, order);
      forall order', c | SortedKeys(order', h.Keys) ensures |ValuesOf(h, order', c)| <= 1 {
        SortedOnce(order, order', h.Keys);
        assert c in rest ==> |rest[c]| <= 1;
      }
    } else if |cookies| <= 1 {
      var c :| c in rest && |rest[c]| > 1;
      assert |ValuesOf(h, order, c)| > 1;
    } else {
      assert |ValuesOf(h, order, SET_COOKIE)| > 1;
    }
  }

  /** Checking the content in one sorted order settles it. */
  lemma ContentIsSettled(content: HeaderMap, h: HeaderMap, order: seq<string>)
    requires SortedKeys(order, h.Keys) && ContentIn(content, h, order)
    ensures IsContent(content, h)
  {
    forall order' | SortedKeys(order', h.Keys) ensures ContentIn(content, h, order') {
      SortedOnce(order, order', h.Keys);
    }
  }

  /** Two renderings of one recording can differ only in how they carry it, never in what. */
  lemma ContentIsUnique(content: HeaderMap, content': HeaderMap, h: HeaderMap, order: seq<string>)
    requires IsContent(content, h) && IsContent(content', h) && SortedKeys(order, h.Keys)
    ensures content == content'
  {
    assert ContentIn(content, h, order) && ContentIn(content', h, order);
    forall c ensures c in content <==> c in content' {
      assert c in content <==> ValuesOf(h, order, c) != [];
      assert c in content' <==> ValuesOf(h, order, c) != [];
    }
    assert content.Keys == content'.Keys;
  }

  // ---- the single-value shapes with a cookies array (HTTP API v2, Function URL) -------------------

  /** joinedHeaders: repeated values comma-joined; cookies are no longer among them. */
  method JoinedHeaders(h: HeaderMap) returns (out: map<string, string>)
    ensures forall c :: c in out <==> c in h && h[c] != []
    ensures forall c :: c in out ==> out[c] == Join(h[c], ",")
  {
    out := map[];
    var keys := Sorted(h.Keys);
    for i := 0 to |keys|
      invariant forall c :: c in out <==> c in keys[..i] && h[c] != []
      invariant forall c :: c in out ==> out[c] == Join(h[c], ",")
    {
      assert keys[i] in keys;
      if h[keys[i]] != [] {
        out := out[keys[i] := Join(h[keys[i]], ",")];
      }
    }
    assert keys[..|keys|] == keys;
  }

  /** The v2 rendering keeps every cookie apart and in order, and joins the rest by name. */
  method RenderV2(h: HeaderMap) returns (headers: map<string, string>, cookies: seq<string>, ghost order: seq<string>)
    ensures SortedKeys(order, h.Keys)
    ensures cookies == ValuesOf(h, order, SET_COOKIE) && SET_COOKIE !in headers
    ensures forall c :: c != SET_COOKIE ==>
              && (c in headers <==> ValuesOf(h, order, c) != [])
              && (c in headers ==> headers[c] == Join(ValuesOf(h, order, c), ","))
  {
    var rest;
    cookies, rest, order := SplitSetCookie(h);
    headers := JoinedHeaders(rest);
  }

  // ---- the recorder -----------------------------------------------------------------------------

  datatype Written = Written(code: int, wroteHeader: bool, body: string)

  datatype Act = Status(code: int) | Chunk(data: string)

  function AfterStatus(w: Written, code: int): Written {
    if w.wroteHeader || 100 <= code < 200 then w
    else w.(code := if code < 100 || code > 999 then 500 else code, wroteHeader := true)
  }

  function AfterAct(w: Written, act: Act): Written {
    match act
    case Status(code) => AfterStatus(w, code)
    case Chunk(data) => var v := AfterStatus(w, 200); v.(body := v.body + data)
  }

  function AfterAll(acts: seq<Act>): Written {
    if acts == [] then Written(200, false, "") else AfterAct(AfterAll(acts[..|acts| - 1]), acts[|acts| - 1])
  }

  /** An act that decides the status: the first final WriteHeader, or the first write. */
  predicate Decides(act: Act) { act.Chunk? || !(100 <= act.code < 200) }

  function DecidedCode(act: Act): int {
    if act.Chunk? then 200 else if act.code < 100 || act.code > 999 then 500 else act.code
  }

  function AllBytes(acts: seq<Act>): string {
    if acts == [] then ""
    else AllBytes(acts[..|acts| - 1]) + if acts[|acts| - 1].Chunk? then acts[|acts| - 1].data else ""
  }

  /** Whatever a handler does, the first deciding act fixes the status and no byte it wrote is lost. */
  lemma {:induction false} FirstDecisionStands(acts: seq<Act>, first: nat)
    requires first <= |acts| && forall i :: 0 <= i < first ==> !Decides(acts[i])
    requires first < |acts| ==> Decides(acts[first])
    ensures AfterAll(acts) == Written(if first < |acts| then DecidedCode(acts[first]) else 200, first < |acts|, AllBytes(acts))
    decreases |acts|
  {
    if acts != [] {
      var n := |acts| - 1;
      if first < n {
        FirstDecisionStands(acts[..n], first);
      } else {
        FirstDecisionStands(acts[..n], n);
      }
    }
  }

  predicate BodyAllowed(verb: string, code: int) {
    verb != "HEAD" && code != 204 && code != 304
  }

  class ResponseRecorder {
    var header: HeaderMap
    var code: int
    var wroteHeader: bool
    var body: string

    constructor ()
      ensures header == map[] && Value() == AfterAll([])
    {
      header, code, wroteHeader, body := map[], 200, false, "";
    }

    ghost function Value(): Written
      reads this
    {
      Written(code, wroteHeader, body)
    }

    method WriteHeader(status: int)
      modifies this`code, this`wroteHeader
      ensures Value() == AfterAct(old(Value()), Status(status))
    {
      if wroteHeader {
        return;
      }
      if 100 <= status < 200 {
        return;
      }
      code := if status < 100 || status > 999 then 500 else status;
      wroteHeader := true;
    }

    method Write(data: string)
      modifies this`code, this`wroteHeader, this`body
      ensures Value() == AfterAct(old(Value()), Chunk(data))
    {
      if !wroteHeader {
        WriteHeader(200);
      }
      body := body + data;
    }

    /** reset: after a panic nothing the handler produced is sent. */
    method Reset(status: int)
      modifies this
      ensures header == map[] && Value() == Written(status, true, "")
    {
      header, body, code, wroteHeader := map[], "", status, true;
    }

    /** dropForbiddenBody: a HEAD, 204 or 304 keeps its headers, cookies included, and loses its body. */
    method DropForbiddenBody(verb: string)
      modifies this`body
      ensures verb == "HEAD" || code == 204 || code == 304 ==> body == ""
      ensures verb != "HEAD" && code != 204 && code != 304 ==> body == old(body)
    {
      if BodyAllowed(verb, code) {
        return;
      }
      body := "";
    }
  }

  // ---- serving one request ------------------------------------------------------------------------

  /** How a handler leaves: everything it did to the recorder, and whether it panicked in the end. */
  datatype Handling = Handling(acts: seq<Act>, panics: bool)

  /** What the recorder holds once the handler is done and a forbidden body is dropped. */
  function Sent(h: Handling, verb: string): Written {
    var w := if h.panics then Written(500, true, "") else AfterAll(h.acts);
    if BodyAllowed(verb, w.code) then w else w.(body := "")
  }

  /** The act that decides the status, |acts| when none does. */
  function FirstDecision(acts: seq<Act>): (first: nat)
    ensures first <= |acts| && forall i :: 0 <= i < first ==> !Decides(acts[i])
    ensures first < |acts| ==> Decides(acts[first])
  {
    if acts == [] then 0
    else
      var n := |acts| - 1;
      var first := FirstDecision(acts[..n]);
      if first < n || Decides(acts[n]) then first else n + 1
  }

  /** The status a handler that returns has chosen. */
  function ChosenCode(acts: seq<Act>): int {
    if FirstDecision(acts) < |acts| then DecidedCode(acts[FirstDecision(acts)]) else 200
  }

  /**
   Every byte the handler wrote is sent, or none is: a panic sends a bare 500, and otherwise the
   status is the first one chosen and the body is kept unless a HEAD, a 204 or a 304 forbids it.
   */
  lemma SentIsAllOrNothing(h: Handling, verb: string)
    ensures Sent(h, verb).code == if h.panics then 500 else ChosenCode(h.acts)
    ensures h.panics || verb == "HEAD" || ChosenCode(h.acts) == 204 || ChosenCode(h.acts) == 304 ==> Sent(h, verb).body == ""
    ensures !h.panics && verb != "HEAD" && ChosenCode(h.acts) != 204 && ChosenCode(h.acts) != 304 ==>
              Sent(h, verb).body == AllBytes(h.acts)
  {
    FirstDecisionStands(h.acts, FirstDecision(h.acts));
  }

  /** serve, around a handler that does what `h` says. */
  method Serve(h: Handling, verb: string) returns (rec: ResponseRecorder)
    ensures fresh(rec) && rec.Value() == Sent(h, verb)
    ensures h.panics ==> rec.header == map[]
  {
    rec := new ResponseRecorder();
    assert h.acts[..0] == [];
    for i := 0 to |h.acts|
      invariant rec.Value() == AfterAll(h.acts[..i])
    {
      assert h.acts[..i + 1][..i] == h.acts[..i];
      match h.acts[i]
      case Status(code) => rec.WriteHeader(code);
      case Chunk(data) => rec.Write(data);
    }
    assert h.acts[..|h.acts|] == h.acts;
    if h.panics {
      rec.Reset(500);
    }
    rec.DropForbiddenBody(verb);
  }
}
