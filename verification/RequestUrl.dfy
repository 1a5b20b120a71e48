/**
 The request path (internal/lambdahttp/request.go): an event's path becomes a pair of a
 decoded Path and the RawPath it came from, and a deployment stage is cut off both. The
 router reads Path and the request line is rendered from RawPath, so the two must agree.
 */
module RequestUrl {
  import opened Bytes

  // ---- percent-encoding (section 2.1 of RFC 3986) -----------------------------------

  predicate IsHex(c: char) { '0' <= c <= '9' || 'a' <= c <= 'f' || 'A' <= c <= 'F' }

  function HexValue(c: char): (v: nat)
    requires IsHex(c)
    ensures v < 16
  {
    if '0' <= c <= '9' then c as nat - '0' as nat
    else if 'a' <= c <= 'f' then c as nat - 'a' as nat + 10
    else c as nat - 'A' as nat + 10
  }

  function HexDigit(v: nat): (c: char)
    requires v < 16
    ensures IsHex(c) && HexValue(c) == v
  {
    if v < 10 then ('0' as nat + v) as char else ('A' as nat + v - 10) as char
  }

  /** url.PathUnescape: None for a '%' that two hex digits do not follow. */
  function Unescape(s: string): Option<string> {
    if s == "" then Some("")
    else if s[0] == '%' then
      if |s| < 3 || !IsHex(s[1]) || !IsHex(s[2]) then None
      else
        var c := (16 * HexValue(s[1]) + HexValue(s[2])) as char;
        match Unescape(s[3..]) case Some(rest) => Some([c] + rest) case None => None
    else match Unescape(s[1..]) case Some(rest) => Some([s[0]] + rest) case None => None
  }

  /** Decoding splits at a slash: no escape reaches across one. */
  lemma {:induction false} UnescapeSplits(p: string, r: string)
    requires Unescape(p + "/" + r).Some?
    ensures Unescape(p).Some? && Unescape(r).Some?
    ensures Unescape(p + "/" + r).value == Unescape(p).value + "/" + Unescape(r).value
    decreases |p|
  {
    var s := p + "/" + r;
    if p == "" {
      assert s[1..] == r;
    } else {
      var step := if p[0] == '%' then 3 else 1;
      if p[0] == '%' {
        assert s[1] != '/' && s[2] != '/';
        assert |p| >= 3 && p[1] == s[1] && p[2] == s[2];
      }
      assert s[step..] == p[step..] + "/" + r;
      UnescapeSplits(p[step..], r);
    }
  }

  function Slashes(s: string): nat {
    if s == "" then 0 else (if s[0] == '/' then 1 else 0) + Slashes(s[1..])
  }

  lemma {:induction false} SlashesAdd(a: string, b: string)
    ensures Slashes(a + b) == Slashes(a) + Slashes(b)
    decreases |a|
  {
    if a == "" {
      assert a + b == b;
    } else {
      assert (a + b)[1..] == a[1..] + b;
      SlashesAdd(a[1..], b);
    }
  }

  /** Decoding never lengthens, never loses a slash, and keeps the length only of plain text. */
  lemma {:induction false} UnescapeShrinks(s: string)
    requires Unescape(s).Some?
    ensures |Unescape(s).value| <= |s| && Slashes(Unescape(s).value) >= Slashes(s)
    ensures |Unescape(s).value| == |s| ==> Unescape(s).value == s
    decreases |s|
  {
    if s != "" {
      var step := if s[0] == '%' then 3 else 1;
      UnescapeShrinks(s[step..]);
      var d := Unescape(s).value;
      assert d[1..] == Unescape(s[step..]).value;
      if step == 3 {
        assert Slashes(s) == Slashes(s[1..]) == Slashes(s[1..][1..]) == Slashes(s[1..][1..][1..]);
        assert s[1..][1..][1..] == s[3..];
      } else {
        assert s == [s[0]] + s[1..];
      }
    }
  }

  // ---- the pair --------------------------------------------------------------------------

  class Url {
    var path: string
    var rawPath: string

    constructor (path: string, rawPath: string)
      ensures this.path == path && this.rawPath == rawPath
    {
      this.path := path;
      this.rawPath := rawPath;
    }
  }

  datatype Pair = Pair(path: string, rawPath: string)

  function Rooted(path: string): (r: string)
    ensures r != "" && r[0] == '/'
  {
    if path == "" then "/" else if path[0] == '/' then path else "/" + path
  }

  function BuiltPair(path: string, encoded: bool): Pair {
    var p := Rooted(path);
    match if encoded then Unescape(p) else None
    case Some(unescaped) => Pair(unescaped, p)
    case None => Pair(p, "")
  }

  /** Path and RawPath name one path: RawPath is empty, or decodes to exactly Path. */
  predicate Agree(u: Pair) {
    && u.path != "" && u.path[0] == '/'
    && (u.rawPath == "" || (u.rawPath[0] == '/' && Unescape(u.rawPath) == Some(u.path)))
  }

  lemma BuiltPairsAgree(path: string, encoded: bool)
    ensures Agree(BuiltPair(path, encoded))
    ensures encoded && Unescape(Rooted(path)).Some? <==> BuiltPair(path, encoded).rawPath != ""
  {
  }

  /** trimPathPrefix: whole segments only; a path equal to the prefix becomes the root. */
  function TrimPathPrefix(path: string, prefix: string): (r: Option<string>)
    ensures r.Some? ==> r.value != "" && r.value[0] == '/' && (path == prefix + r.value || (path == prefix && r.value == "/"))
    ensures r.None? <==> path != prefix && !(prefix + "/" <= path)
  {
    if path == prefix then Some("/")
    else if prefix + "/" <= path then
      assert path == prefix + path[|prefix|..];
      Some(path[|prefix|..])
    else None
  }

  function StrippedPair(u: Pair, prefix: string): Pair {
    if prefix == "" then u
    else match TrimPathPrefix(u.path, prefix)
      case None => u
      case Some(trimmed) =>
        if u.rawPath == "" then Pair(trimmed, "")
        else match TrimPathPrefix(u.rawPath, prefix)
          case Some(rawTrimmed) => Pair(trimmed, rawTrimmed)
          case None => Pair(trimmed, "")
  }

  /**
   A prefix both forms of a path begin with decodes to itself: an escape in it would move
   the slash that ends it to the left, into the prefix.
   */
  lemma SharedPrefixIsPlain(raw: string, path: string, prefix: string)
    requires Unescape(raw) == Some(path)
    requires TrimPathPrefix(raw, prefix).Some? && TrimPathPrefix(path, prefix).Some?
    ensures Unescape(prefix) == Some(prefix)
  {
    if raw == prefix {
      UnescapeShrinks(raw);
    } else {
      var r := raw[|prefix| + 1..];
      assert raw == prefix + "/" + r;
      UnescapeSplits(prefix, r);
      UnescapeShrinks(prefix);
      var d := Unescape(prefix).value;
      assert path == d + "/" + Unescape(r).value;
      if |d| < |prefix| {
        assert path[..|prefix|] == prefix;
        var x := prefix[|d| + 1..];
        assert prefix == d + "/" + x by {
          assert prefix[..|d| + 1] == path[..|d| + 1] == d + "/";
        }
        SlashesAdd(d + "/", x);
        SlashesAdd(d, "/");
      }
    }
  }

  /** Cutting the stage keeps the pair in step, whatever the prefix: with escapes in it, without, or empty. */
  lemma StrippingKeepsAgreement(u: Pair, prefix: string)
    requires Agree(u)
    ensures Agree(StrippedPair(u, prefix))
  {
    if prefix != "" && u.rawPath != "" && TrimPathPrefix(u.path, prefix).Some? && TrimPathPrefix(u.rawPath, prefix).Some? {
      SharedPrefixIsPlain(u.rawPath, u.path, prefix);
      TrimmedPairAgrees(u.rawPath, u.path, prefix);
    }
  }

  /** Cut off both forms, a prefix that decodes to itself leaves forms that still decode one into the other. */
  lemma TrimmedPairAgrees(raw: string, path: string, prefix: string)
    requires Unescape(raw) == Some(path) && Unescape(prefix) == Some(prefix)
    requires TrimPathPrefix(raw, prefix).Some? && TrimPathPrefix(path, prefix).Some?
    ensures Unescape(TrimPathPrefix(raw, prefix).value) == Some(TrimPathPrefix(path, prefix).value)
  {
    if raw == prefix {
      SlashDecodes("");
    } else {
      var r := raw[|prefix| + 1..];
      assert raw == prefix + "/" + r;
      UnescapeSplits(prefix, r);
      AfterPrefix(prefix, r);
      AfterPrefix(prefix, Unescape(r).value);
      SlashDecodes(r);
    }
  }

  lemma AfterPrefix(prefix: string, r: string)
    ensures (prefix + "/" + r)[|prefix|..] == "/" + r
  {
  }

  lemma SlashDecodes(r: string)
    requires Unescape(r).Some?
    ensures Unescape("/" + r) == Some("/" + Unescape(r).value)
    ensures "/" + "" == "/"
  {
    assert ("/" + r)[1..] == r;
  }

  /** Every event path under every stage prefix: the router's path is rooted and is what RawPath decodes to. */
  lemma RequestPathsAgree(path: string, encoded: bool, prefix: string)
    ensures Agree(StrippedPair(BuiltPair(path, encoded), prefix))
  {
    BuiltPairsAgree(path, encoded);
    StrippingKeepsAgreement(BuiltPair(path, encoded), prefix);
  }

  /** What is cut off is the prefix and nothing else. */
  lemma StrippingCutsThePrefix(u: Pair, prefix: string)
    requires Agree(u)
    ensures var v := StrippedPair(u, prefix);
            if prefix == "" || (u.path != prefix && !(prefix + "/" <= u.path)) then v == u
            else u.path == prefix + v.path || (u.path == prefix && v.path == "/")
  {
  }

  // ---- the request line (URL.EscapedPath) ----------------------------------------------------

  predicate Unreserved(c: char) {
    'A' <= c <= 'Z' || 'a' <= c <= 'z' || '0' <= c <= '9' || c in "-_.~$&+,/:;=@"
  }

  /** A byte written as its percent triplet unless a path may hold it as it is. */
  function Escape(s: string): string
    requires forall i :: 0 <= i < |s| ==> s[i] as nat < 256
  {
    if s == "" then "" else EscapeByte(s[0]) + Escape(s[1..])
  }

  function EscapeByte(c: char): string
    requires c as nat < 256
  {
    if Unreserved(c) then [c] else ['%', HexDigit(c as nat / 16), HexDigit(c as nat % 16)]
  }

  lemma ByteDecodes(c: char, rest: string)
    requires c as nat < 256 && Unescape(rest).Some?
    ensures Unescape(EscapeByte(c) + rest) == Some([c] + Unescape(rest).value)
  {
    assert (EscapeByte(c) + rest)[|EscapeByte(c)|..] == rest;
  }

  lemma {:induction false} EscapeDecodes(s: string)
    requires forall i :: 0 <= i < |s| ==> s[i] as nat < 256
    ensures Unescape(Escape(s)) == Some(s)
    decreases |s|
  {
    if s != "" {
      EscapeDecodes(s[1..]);
      ByteDecodes(s[0], Escape(s[1..]));
      assert s == [s[0]] + s[1..];
    }
  }

  /** RawPath when it is a valid rendering of Path, the default escaping of Path otherwise. */
  function EscapedPath(u: Pair, validEncoding: bool): string
    requires forall i :: 0 <= i < |u.path| ==> u.path[i] as nat < 256
  {
    if u.rawPath != "" && validEncoding && Unescape(u.rawPath) == Some(u.path) then u.rawPath else Escape(u.path)
  }

  /** The request line always names the path that is routed, and keeps an unstripped encoded path byte for byte. */
  lemma RequestLineNamesThePath(path: string, encoded: bool, prefix: string, validEncoding: bool)
    requires forall i :: 0 <= i < |path| ==> path[i] as nat < 256
    ensures var u := StrippedPair(BuiltPair(path, encoded), prefix);
            && (forall i :: 0 <= i < |u.path| ==> u.path[i] as nat < 256)
            && Unescape(EscapedPath(u, validEncoding)) == Some(u.path)
            && (u.rawPath == Rooted(path) && validEncoding ==> EscapedPath(u, validEncoding) == Rooted(path))
  {
    var u := StrippedPair(BuiltPair(path, encoded), prefix);
    BytesDecodeToBytes(Rooted(path));
    RequestPathsAgree(path, encoded, prefix);
    EscapeDecodes(u.path);
  }

  lemma {:induction false} BytesDecodeToBytes(s: string)
    requires forall i :: 0 <= i < |s| ==> s[i] as nat < 256
    ensures Unescape(s).Some? ==> forall i :: 0 <= i < |Unescape(s).value| ==> Unescape(s).value[i] as nat < 256
    decreases |s|
  {
    if s != "" {
      BytesDecodeToBytes(s[1..]);
      if |s| >= 3 {
        BytesDecodeToBytes(s[3..]);
      }
    }
  }

  // ---- the code ---------------------------------------------------------------------------------

  /** buildURL. */
  method BuildUrl(path: string, encoded: bool) returns (u: Url)
    ensures fresh(u) && Pair(u.path, u.rawPath) == BuiltPair(path, encoded)
  {
    var p := path;
    if p == "" {
      p := "/";
    }
    if p[0] != '/' {
      p := "/" + p;
    }
    u := new Url("", "");
    if !encoded {
      u.path := p;
      return;
    }
    var unescaped := Unescape(p);
    if unescaped.None? {
      u.path := p;
      return;
    }
    u.path := unescaped.value;
    u.rawPath := p;
  }

  /** stripStagePrefix. */
  method StripStagePrefix(u: Url, prefix: string)
    modifies u
    ensures Pair(u.path, u.rawPath) == StrippedPair(old(Pair(u.path, u.rawPath)), prefix)
    ensures old(Agree(Pair(u.path, u.rawPath))) ==> Agree(Pair(u.path, u.rawPath))
  {
    ghost var before := Pair(u.path, u.rawPath);
    if Agree(before) {
      StrippingKeepsAgreement(before, prefix);
    }
    if prefix == "" {
      return;
    }
    var trimmed := TrimPathPrefix(u.path, prefix);
    if trimmed.None? {
      return;
    }
    u.path := trimmed.value;
    if u.rawPath != "" {
      var rawTrimmed := TrimPathPrefix(u.rawPath, prefix);
      if rawTrimmed.Some? {
        u.rawPath := rawTrimmed.value;
      } else {
        u.rawPath := "";
      }
    }
  }

  function TrimSlashesLeft(s: string): (r: string)
    ensures r == "" || r[0] != '/'
  {
    if s != "" && s[0] == '/' then TrimSlashesLeft(s[1..]) else s
  }

  function TrimSlashesRight(s: string): (r: string)
    ensures r <= s && (r == "" || r[|r| - 1] != '/')
  {
    if s != "" && s[|s| - 1] == '/' then TrimSlashesRight(s[..|s| - 1]) else s
  }

  /** stagePrefixFor: the configured prefix, else the event's stage if that was opted into; one rooted segment path or nothing. */
  function StagePrefixFor(configured: string, stripStageFromEvent: bool, stage: string): (r: string)
    ensures r == "" || (|r| > 1 && r[0] == '/' && r[1] != '/' && r[|r| - 1] != '/' && r != "/$default")
  {
    var prefix := TrimSlashesRight(TrimSlashesLeft(if configured == "" && stripStageFromEvent then stage else configured));
    if prefix == "" || prefix == "$default" then ""
    else
      assert ("/" + prefix)[1..] == prefix;
      assert "/$default"[1..] == "$default";
      "/" + prefix
  }
}
