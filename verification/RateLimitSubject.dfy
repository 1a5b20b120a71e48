/**
 What a request is limited by (cmd/auth/ratelimit.go): a bounded look at its body names an
 account, or the address does. The look must cost the handler below nothing, and whatever it
 finds must be a subject the shared counter takes.
 */
module RateLimitSubject {
  import opened Bytes
  import opened Keys

  const MAX_PEEK := 8192
  const MAX_SUBJECT := 320

  // ---- the body ------------------------------------------------------------------------

  datatype End = Eof | Failure

  /** What a reader of the body gets: these bytes, then this end. */
  datatype Stream = Stream(bytes: string, end: End)

  /** A request body: bytes put back in front of a stream that is read once. */
  class Body {
    var front: string
    var rest: Stream

    constructor (rest: Stream)
      ensures Delivered() == rest
    {
      front, this.rest := "", rest;
    }

    ghost function Delivered(): Stream
      reads this
    {
      Stream(front + rest.bytes, rest.end)
    }

    /** One Read of at most `n` bytes, of any size the transport chooses; done tells why no byte came. */
    method Read(n: nat) returns (chunk: string, done: Option<End>)
      requires n > 0
      modifies this
      ensures |chunk| <= n && old(Delivered()) == Stream(chunk + Delivered().bytes, Delivered().end)
      ensures done.Some? <==> old(Delivered().bytes) == ""
      ensures done.Some? ==> chunk == "" && done.value == old(Delivered().end)
      ensures done.None? ==> chunk != ""
    {
      if front != "" {
        var k: nat :| 1 <= k <= n && k <= |front|;
        chunk, done := front[..k], None;
        assert front == front[..k] + front[k..];
        assert chunk + (front[k..] + rest.bytes) == front + rest.bytes;
        front := front[k..];
      } else if rest.bytes != "" {
        var k: nat :| 1 <= k <= n && k <= |rest.bytes|;
        chunk, done := rest.bytes[..k], None;
        assert chunk + rest.bytes[k..] == rest.bytes;
        rest := rest.(bytes := rest.bytes[k..]);
        assert front + rest.bytes == rest.bytes;
      } else {
        return "", Some(rest.end);
      }
    }

    /** peekRateLimitBody: what it returns, and that a handler reads the body as if it had never been called. */
    method Peek() returns (peek: string)
      modifies this
      ensures Delivered() == old(Delivered())
      ensures peek == Peeked(old(Delivered()))
    {
      peek := "";
      var failed := false;
      var ended := false;
      while |peek| < MAX_PEEK && !ended
        invariant |peek| <= MAX_PEEK
        invariant old(Delivered()) == Stream(peek + Delivered().bytes, Delivered().end)
        invariant ended ==> |peek| < MAX_PEEK && Delivered().bytes == "" && (failed <==> Delivered().end == Failure)
        invariant !ended ==> !failed
        decreases MAX_PEEK - |peek|, !ended
      {
        var chunk, done := Read(MAX_PEEK - |peek|);
        if done.Some? {
          ended, failed := true, done.value == Failure;
        } else {
          Associates(peek, chunk, Delivered().bytes);
          peek := peek + chunk;
        }
      }
      ghost var all := old(Delivered().bytes);
      assert all[..|peek|] == peek;
      if peek == "" {
        return "";
      }
      Associates(peek, front, rest.bytes);
      front := peek + front;
      if failed {
        return "";
      }
    }
  }

  /** The first bytes of a body, or nothing when it fails among them. */
  function Peeked(s: Stream): string {
    if |s.bytes| < MAX_PEEK && s.end == Failure then ""
    else if |s.bytes| < MAX_PEEK then s.bytes
    else s.bytes[..MAX_PEEK]
  }

  // ---- the subject ------------------------------------------------------------------------

  /** One route's source: a member of the body, read as an address, or hashed, or as it is. */
  datatype Source = Source(field: string, address: bool, hash: bool)

  datatype Member = Text(s: string) | NotAString

  /** The JSON members of a body, None when it is no JSON object; and the truncated digest in hex. */
  datatype Codec = Codec(members: string -> Option<map<string, Member>>, digest: string -> string)

  ghost predicate ValidCodec(c: Codec) {
    forall v :: |c.digest(v)| == 32 && forall i :: 0 <= i < 32 ==> IsAlphanumeric(c.digest(v)[i])
  }

  /** checkRateLimitSubject. */
  predicate StoreAccepts(subject: string) { ValidOpaque(subject, MAX_SUBJECT) }

  function NormalizedSubject(c: Codec, v: string, src: Source): string {
    var w := if src.address then Normalize(v) else Trim(v);
    if w == "" then ""
    else if src.hash then c.digest(w)
    else if |w| > MAX_SUBJECT || HasControl(w) then ""
    else w
  }

  /** Whatever a source yields is a subject the counter takes. */
  lemma SubjectsFitTheStore(c: Codec, v: string, src: Source)
    requires ValidCodec(c)
    ensures NormalizedSubject(c, v, src) != "" ==> StoreAccepts(NormalizedSubject(c, v, src))
  {
    var w := if src.address then Normalize(v) else Trim(v);
    assert |c.digest(w)| == 32;
    assert forall i :: 0 <= i < 32 ==> IsAlphanumeric(c.digest(w)[i]);
  }

  /** The first source, in the route's order, that yields a subject. */
  function FirstSubject(c: Codec, fields: map<string, Member>, sources: seq<Source>): string {
    if sources == [] then ""
    else
      var src := sources[0];
      var v := if src.field in fields && fields[src.field].Text? then NormalizedSubject(c, fields[src.field].s, src) else "";
      if v != "" then v else FirstSubject(c, fields, sources[1..])
  }

  function SubjectOf(c: Codec, s: Stream, byEmail: bool, sources: seq<Source>, address: string): string {
    if !byEmail then address
    else match c.members(Peeked(s))
      case None => address
      case Some(fields) => if Peeked(s) == "" || FirstSubject(c, fields, sources) == "" then address else FirstSubject(c, fields, sources)
  }

  lemma {:induction false} FirstSubjectFits(c: Codec, fields: map<string, Member>, sources: seq<Source>)
    requires ValidCodec(c)
    ensures FirstSubject(c, fields, sources) != "" ==> StoreAccepts(FirstSubject(c, fields, sources))
    decreases |sources|
  {
    if sources != [] {
      if sources[0].field in fields && fields[sources[0].field].Text? {
        SubjectsFitTheStore(c, fields[sources[0].field].s, sources[0]);
      }
      FirstSubjectFits(c, fields, sources[1..]);
    }
  }

  /** The subject is one the counter takes, or the client's address; what lies beyond the look never decides it. */
  lemma SubjectIsBounded(c: Codec, s: Stream, s': Stream, byEmail: bool, sources: seq<Source>, address: string)
    requires ValidCodec(c)
    ensures var subject := SubjectOf(c, s, byEmail, sources, address);
            subject == address || StoreAccepts(subject)
    ensures |s.bytes| >= MAX_PEEK && |s'.bytes| >= MAX_PEEK && s.bytes[..MAX_PEEK] == s'.bytes[..MAX_PEEK] ==>
              SubjectOf(c, s, byEmail, sources, address) == SubjectOf(c, s', byEmail, sources, address)
  {
    if byEmail && c.members(Peeked(s)).Some? {
      FirstSubjectFits(c, c.members(Peeked(s)).value, sources);
    }
  }

  /** rateLimitSubject: the subject, with the body left as it was for the handler. */
  method RateLimitSubject(c: Codec, body: Body, byEmail: bool, sources: seq<Source>, address: string) returns (subject: string)
    modifies body
    ensures body.Delivered() == old(body.Delivered())
    ensures subject == SubjectOf(c, old(body.Delivered()), byEmail, sources, address)
  {
    if !byEmail || sources == [] {
      return address;
    }
    var peek := body.Peek();
    if peek != "" {
      var fields := c.members(peek);
      if fields.Some? {
        for i := 0 to |sources|
          invariant FirstSubject(c, fields.value, sources) == FirstSubject(c, fields.value, sources[i..])
        {
          assert sources[i..][1..] == sources[i + 1..];
          if sources[i].field in fields.value && fields.value[sources[i].field].Text? {
            var v := NormalizedSubject(c, fields.value[sources[i].field].s, sources[i]);
            if v != "" {
              return v;
            }
          }
        }
      }
    }
    return address;
  }
}
