/**
 The two-tier rate limiter (cmd/auth/ratelimit.go, and the shared counter's contract in
 internal/store/dynamodb/rate_limit.go): any number of execution environments, each with
 its own local table in front of one shared counter per subject and window. An
 environment serves one request at a time; clocks are one common, never decreasing clock.
 */
module RateLimit {
  import opened Arithmetic
  import opened Bytes
  import opened Keys
  import opened Stamps

  // ---- windows ------------------------------------------------------------------

  /** Go's integer division, truncated toward zero. */
  function TruncDiv(a: int, b: int): int
    requires b > 0
  {
    if a >= 0 then a / b else -((-a) / b)
  }

  /** int64(window / time.Second), at least 1; `window` is in nanoseconds. */
  function WindowSeconds(window: int): (secs: int)
    ensures secs >= 1
  {
    var secs := TruncDiv(window, NANOS_PER_SECOND);
    if secs < 1 then 1 else secs
  }

  /** Both tiers number windows from the epoch. */
  function WindowIndex(now: Instant, secs: int): int
    requires secs >= 1
  {
    TruncDiv(now.sec, secs)
  }

  lemma WindowIndexMonotone(t: Instant, u: Instant, secs: int)
    requires secs >= 1 && !Before(u, t)
    ensures WindowIndex(t, secs) <= WindowIndex(u, secs)
  {
    BeforeIsLexicographic(u, t);
    DivMonotone(t.sec, u.sec, secs);
  }

  lemma DivLower(a: int, d: int, q: int)
    requires d > 0 && q * d <= a
    ensures q <= a / d
  {
    var k := a / d;
    assert k * d <= a < (k + 1) * d;
    if k < q {
      MulLe(k + 1, q, d);
    }
  }

  lemma EuclidMonotone(a: int, b: int, d: int)
    requires d > 0 && a <= b
    ensures a / d <= b / d
  {
    assert (a / d) * d <= a;
    DivLower(b, d, a / d);
  }

  lemma DivMonotone(a: int, b: int, d: int)
    requires d > 0 && a <= b
    ensures TruncDiv(a, d) <= TruncDiv(b, d)
  {
    if a >= 0 {
      EuclidMonotone(a, b, d);
    } else {
      EuclidMonotone(-b, -a, d);
      DivLower(-a, d, 0);
      if b >= 0 { DivLower(b, d, 0); }
    }
  }

  /** rateLimitRemaining, in nanoseconds. */
  function Remaining(now: Instant, secs: int): int
    requires secs >= 1
  {
    (WindowIndex(now, secs) + 1) * secs * NANOS_PER_SECOND - Nanos(now)
  }

  /** writeRateLimited's Retry-After: whole seconds rounded up, never below one. */
  function RetryAfter(remaining: int): int {
    var seconds := (remaining + NANOS_PER_SECOND - 1) / NANOS_PER_SECOND;
    if seconds < 1 then 1 else seconds
  }

  /** Waiting that long always reaches the next window, and is never a zero wait. */
  lemma RetryAfterReachesTheWindowEnd(now: Instant, secs: int)
    requires secs >= 1
    ensures var wait := RetryAfter(Remaining(now, secs));
            && 1 <= wait
            && (WindowIndex(now, secs) + 1) * secs <= now.sec + wait
    ensures WindowIndex(Instant(now.sec + RetryAfter(Remaining(now, secs)), now.nanos), secs) > WindowIndex(now, secs)
  {
    var wait, next := RetryAfter(Remaining(now, secs)), WindowIndex(now, secs) + 1;
    var end := next * secs;
    assert Remaining(now, secs) == end * NANOS_PER_SECOND - Nanos(now);
    assert now.sec + wait >= end;
    if next >= 0 {
      EuclidMonotone(end, now.sec + wait, secs);
      DivExact(next, secs);
      DivMonotone(end, now.sec + wait, secs);
    } else {
      DivExact(-next, secs);
      assert end == -((-next) * secs);
      DivMonotone(end, now.sec + wait, secs);
    }
  }

  lemma DivExact(q: nat, d: int)
    requires d > 0
    ensures q * d >= 0 && (q * d) / d == q
  {
    MulLe(0, q, d);
    assert (q + 1) * d == q * d + d;
    QuotientIs(q * d, d, q, 0);
  }

  /**
   The wait is at most one window exactly when the instant is not before 1970, or
   is a window boundary to the second: truncation makes the window around zero
   almost twice as long.
   */
  lemma RetryAfterWithinTheWindowIff(now: Instant, secs: int)
    requires secs >= 1
    ensures RetryAfter(Remaining(now, secs)) <= secs <==> now.sec >= 0 || (-now.sec) % secs == 0
  {
    var index := WindowIndex(now, secs);
    if now.sec >= 0 {
      var q, r := now.sec / secs, now.sec % secs;
      assert now.sec == secs * q + r;
      assert (q + 1) * secs - now.sec == secs - r;
    } else {
      var q, r := (-now.sec) / secs, (-now.sec) % secs;
      assert -now.sec == secs * q + r;
      assert index == -q;
      assert (index + 1) * secs - now.sec == secs + r by {
        assert (1 - q) * secs == secs - q * secs;
      }
      assert Remaining(now, secs) == (secs + r) * NANOS_PER_SECOND - now.nanos;
      assert RetryAfter(Remaining(now, secs)) == secs + r;
    }
  }

  // ---- the local tier ---------------------------------------------------------------

  /** The counts of one window; every other window's counts have been dropped. */
  datatype Local = Local(index: int, counts: map<string, nat>)

  datatype Verdict = Refused | Untracked | Counted

  function LocalKey(scope: string, subject: string): string { scope + "\0" + subject }

  function CountOf(l: Local, key: string): nat { if key in l.counts then l.counts[key] else 0 }

  /** localRateLimiter.allow at window `index`. */
  function AllowLocal(l: Local, max: int, maxSubjects: int, index: int, key: string): (Verdict, Local) {
    var rolled := if index != l.index then Local(index, map[]) else l;
    if key !in rolled.counts && |rolled.counts| >= maxSubjects then (Untracked, rolled)
    else if CountOf(rolled, key) >= max then (Refused, rolled)
    else (Counted, rolled.(counts := rolled.counts[key := CountOf(rolled, key) + 1]))
  }

  /** The table of one execution environment, with the clock passed in. */
  class LocalRateLimiter {
    const max: int
    const window: int
    const maxSubjects: int
    var index: int
    var counts: map<string, nat>

    constructor (max: int, window: int)
      ensures this.max == max && this.window == window && maxSubjects == 10_000
      ensures State() == Local(0, map[])
    {
      this.max := max;
      this.window := window;
      this.maxSubjects := 10_000;
      index := 0;
      counts := map[];
    }

    ghost function State(): Local
      reads this
    {
      Local(index, counts)
    }

    /** One request: true unless this environment has counted `max` requests of the subject in this window. */
    method Allow(now: Instant, scope: string, subject: string) returns (ok: bool)
      modifies this`index, this`counts
      ensures var (verdict, after) := AllowLocal(old(State()), max, maxSubjects, WindowIndex(now, WindowSeconds(window)), LocalKey(scope, subject));
              ok == (verdict != Refused) && State() == after
      ensures index == WindowIndex(now, WindowSeconds(window))
      ensures forall k :: k in counts && k != LocalKey(scope, subject) ==>
                index == old(index) && k in old(counts) && counts[k] == old(counts)[k]
      ensures !ok && max >= 1 ==>
                old(index) == index && LocalKey(scope, subject) in old(counts) && old(counts)[LocalKey(scope, subject)] >= max
      ensures |counts| <= old(|counts|) + 1
    {
      var current := WindowIndex(now, WindowSeconds(window));
      if current != index {
        index := current;
        counts := map[];
      }
      var k := LocalKey(scope, subject);
      var n := if k in counts then counts[k] else 0;
      if k !in counts && |counts| >= maxSubjects {
        return true;
      }
      if n >= max {
        return false;
      }
      counts := counts[k := n + 1];
      return true;
    }
  }

  // ---- the system --------------------------------------------------------------------

  datatype ConfigRaw = Config(max: int, secs: int, maxSubjects: int)
  /** Validation admits only a positive budget and window. */
  type Config = c: ConfigRaw | c.max >= 1 && c.secs >= 1 witness ConfigRaw.Config(1, 1, 0)

  datatype WhoRaw = Who(scope: string, subject: string)
  /** Scopes come from a fixed vocabulary without NUL. */
  type Who = w: WhoRaw | '\0' !in w.scope witness WhoRaw.Who("", "")

  function KeyOf(who: Who): string { LocalKey(who.scope, who.subject) }

  lemma KeyOfInjective(who: Who, who': Who)
    ensures KeyOf(who) == KeyOf(who') <==> who == who'
  {
    CutJoined(who.scope, who.subject, '\0');
    CutJoined(who'.scope, who'.subject, '\0');
  }

  /** What an environment is doing: between requests, allowed locally, or with the counter's clock read. */
  datatype Pc =
    | Idle
    | Allowed(who: Who, tracked: bool)
    | Writing(who: Who, tracked: bool, asked: Instant)

  datatype Env = Env(local: Local, pc: Pc)

  datatype Reply = Accepted | Rejected | FailedOpen

  /** A request the counter was asked about: its local window, the counter's clock reading and window, and the outcome. */
  datatype Event = Answer(env: nat, who: Who, window: int, tracked: bool, asked: Instant, counter: int, reply: Reply)

  datatype State = State(now: Instant, envs: map<nat, Env>, shared: map<ItemKey, nat>, log: seq<Event>)

  datatype Step =
    | Tick(to: Instant)
    | ColdStart(env: nat)
    | Arrive(env: nat, who: Who)
    | Ask(env: nat)
    | Update(env: nat)
    | Fail(env: nat, applied: bool)

  function CounterKey(who: Who, window: int): ItemKey { ItemKey.RateLimit(who.scope, who.subject, window) }

  function Shared(s: State, who: Who, window: int): nat {
    if CounterKey(who, window) in s.shared then s.shared[CounterKey(who, window)] else 0
  }

  /** AllowRequest's conditional update: one unit if the budget is not spent. */
  function Bumped(cfg: Config, s: State, who: Who, window: int): map<ItemKey, nat> {
    if Shared(s, who, window) < cfg.max then s.shared[CounterKey(who, window) := Shared(s, who, window) + 1] else s.shared
  }

  function Answered(cfg: Config, s: State, e: nat, reply: Reply): State
    requires e in s.envs && s.envs[e].pc.Writing?
  {
    var pc := s.envs[e].pc;
    var event := Answer(e, pc.who, s.envs[e].local.index, pc.tracked, pc.asked, WindowIndex(pc.asked, cfg.secs), reply);
    s.(envs := s.envs[e := s.envs[e].(pc := Idle)], log := s.log + [event])
  }

  function Next(cfg: Config, s: State, step: Step): State {
    match step
    case Tick(to) => if Before(to, s.now) then s else s.(now := to)
    case ColdStart(e) => if e in s.envs then s else s.(envs := s.envs[e := Env(Local(0, map[]), Idle)])
    case Arrive(e, who) =>
      if e !in s.envs || !s.envs[e].pc.Idle? then s
      else
        var (verdict, after) := AllowLocal(s.envs[e].local, cfg.max, cfg.maxSubjects, WindowIndex(s.now, cfg.secs), KeyOf(who));
        s.(envs := s.envs[e := Env(after, if verdict == Refused then Idle else Allowed(who, verdict == Counted))])
    case Ask(e) =>
      if e !in s.envs || !s.envs[e].pc.Allowed? then s
      else s.(envs := s.envs[e := s.envs[e].(pc := Writing(s.envs[e].pc.who, s.envs[e].pc.tracked, s.now))])
    case Update(e) =>
      if e !in s.envs || !s.envs[e].pc.Writing? then s
      else
        var pc := s.envs[e].pc;
        var w := WindowIndex(pc.asked, cfg.secs);
        Answered(cfg, s, e, if Shared(s, pc.who, w) < cfg.max then Accepted else Rejected).(shared := Bumped(cfg, s, pc.who, w))
    case Fail(e, applied) =>
      // The reply is lost or never comes; the write may or may not have been applied. The request passes.
      if e !in s.envs || !s.envs[e].pc.Writing? then s
      else
        var pc := s.envs[e].pc;
        Answered(cfg, s, e, FailedOpen).(shared := if applied then Bumped(cfg, s, pc.who, WindowIndex(pc.asked, cfg.secs)) else s.shared)
  }

  function Run(cfg: Config, s: State, steps: seq<Step>): State {
    if steps == [] then s else Next(cfg, Run(cfg, s, steps[..|steps| - 1]), steps[|steps| - 1])
  }

  // ---- counting the log -----------------------------------------------------------------

  datatype Query =
    | FailuresBy(env: nat, who: Who, window: int)       // fail-open answers, by local window
    | PassesBy(env: nat, who: Who, window: int)         // tracked requests let through, by local window
    | AcceptedIn(who: Who, counter: int)                // accepted by the counter of one window
    | FailuresIn(who: Who, counter: int)
    | PassesIn(who: Who, counter: int)
    | AcceptedBetween(who: Who, from: Instant, to: Instant)   // by the counter's clock, `to` excluded
    | FailuresBetween(who: Who, from: Instant, to: Instant)
    | PassesBetween(who: Who, from: Instant, to: Instant)

  predicate Matches(ev: Event, q: Query) {
    match q
    case FailuresBy(e, who, w) => ev.env == e && ev.who == who && ev.window == w && ev.tracked && ev.reply == FailedOpen
    case PassesBy(e, who, w) => ev.env == e && ev.who == who && ev.window == w && ev.tracked && ev.reply != Rejected
    case AcceptedIn(who, w) => ev.who == who && ev.counter == w && ev.reply == Accepted
    case FailuresIn(who, w) => ev.who == who && ev.counter == w && ev.reply == FailedOpen
    case PassesIn(who, w) => ev.who == who && ev.counter == w && ev.reply != Rejected
    case AcceptedBetween(who, from, to) => ev.who == who && ev.reply == Accepted && AskedBetween(ev, from, to)
    case FailuresBetween(who, from, to) => ev.who == who && ev.reply == FailedOpen && AskedBetween(ev, from, to)
    case PassesBetween(who, from, to) => ev.who == who && ev.reply != Rejected && AskedBetween(ev, from, to)
  }

  predicate AskedBetween(ev: Event, from: Instant, to: Instant) { !Before(ev.asked, from) && Before(ev.asked, to) }

  function Tally(log: seq<Event>, q: Query): nat {
    if log == [] then 0
    else Tally(log[..|log| - 1], q) + if Matches(log[|log| - 1], q) then 1 else 0
  }

  lemma TallySnoc(log: seq<Event>, ev: Event, q: Query)
    ensures Tally(log + [ev], q) == Tally(log, q) + if Matches(ev, q) then 1 else 0
  {
    assert (log + [ev])[..|log|] == log;
  }

  // ---- the invariant -------------------------------------------------------------------------

  predicate Pending(pc: Pc, who: Who) { !pc.Idle? && pc.tracked && pc.who == who }

  function Due(pc: Pc, who: Who): nat { if Pending(pc, who) then 1 else 0 }

  ghost predicate EnvOk(cfg: Config, s: State, e: nat)
    requires e in s.envs
  {
    var env := s.envs[e];
    && env.local.index <= WindowIndex(s.now, cfg.secs)
    && (forall k :: k in env.local.counts ==> env.local.counts[k] <= cfg.max)
    && (env.pc.Writing? ==> !Before(s.now, env.pc.asked) && env.local.index <= WindowIndex(env.pc.asked, cfg.secs))
  }

  /** While the local window is the current one, every local count is covered by the shared counter, a failure, or the request in flight. */
  ghost predicate Covered(cfg: Config, s: State, e: nat)
    requires e in s.envs
  {
    var env := s.envs[e];
    env.local.index == WindowIndex(s.now, cfg.secs) ==>
      forall who: Who :: CountOf(env.local, KeyOf(who)) <=
        Shared(s, who, env.local.index) + Tally(s.log, FailuresBy(e, who, env.local.index)) + Due(env.pc, who)
  }

  /** Requests let through in a local window never exceed that window's count, nor the budget once it has passed. */
  ghost predicate PassesCounted(cfg: Config, s: State, e: nat)
    requires e in s.envs
  {
    var env := s.envs[e];
    forall who: Who, w: int ::
      Tally(s.log, PassesBy(e, who, w)) + (if w == env.local.index then Due(env.pc, who) else 0)
      <= if w == env.local.index then CountOf(env.local, KeyOf(who)) else if w < env.local.index then cfg.max else 0
  }

  ghost predicate SharedOk(cfg: Config, s: State) {
    && (forall k :: k in s.shared ==> s.shared[k] <= cfg.max)
    && (forall who: Who, w: int :: Tally(s.log, AcceptedIn(who, w)) <= Shared(s, who, w))
    && (forall i :: 0 <= i < |s.log| ==> s.log[i].counter == WindowIndex(s.log[i].asked, cfg.secs))
  }

  ghost predicate Inv(cfg: Config, s: State) {
    && s.now.sec >= 0
    && SharedOk(cfg, s)
    && (forall e :: e in s.envs ==> EnvOk(cfg, s, e) && Covered(cfg, s, e) && PassesCounted(cfg, s, e))
    && (forall e: nat, who: Who, w: int :: e !in s.envs ==> Tally(s.log, PassesBy(e, who, w)) == 0)
  }

  predicate Initial(s: State) { s.now.sec >= 0 && s.envs == map[] && s.shared == map[] && s.log == [] }

  lemma InitialIsOk(cfg: Config, s: State)
    requires Initial(s)
    ensures Inv(cfg, s)
  {
  }

  lemma TickKeepsInv(cfg: Config, s: State, to: Instant)
    requires Inv(cfg, s) && !Before(to, s.now)
    ensures Inv(cfg, s.(now := to))
  {
    var s' := s.(now := to);
    WindowIndexMonotone(s.now, to, cfg.secs);
    BeforeIsLexicographic(to, s.now);
    forall e | e in s'.envs ensures EnvOk(cfg, s', e) && Covered(cfg, s', e) && PassesCounted(cfg, s', e) {
      assert EnvOk(cfg, s, e) && Covered(cfg, s, e) && PassesCounted(cfg, s, e);
    }
  }

  lemma ColdStartKeepsInv(cfg: Config, s: State, e: nat)
    requires Inv(cfg, s) && e !in s.envs
    ensures Inv(cfg, Next(cfg, s, ColdStart(e)))
  {
    var s' := Next(cfg, s, ColdStart(e));
    EuclidMonotone(0, s.now.sec, cfg.secs);
    assert 0 / cfg.secs == 0;
    forall d | d in s'.envs ensures EnvOk(cfg, s', d) && Covered(cfg, s', d) && PassesCounted(cfg, s', d) {
      if d != e {
        assert EnvOk(cfg, s, d) && Covered(cfg, s, d) && PassesCounted(cfg, s, d);
      }
    }
  }

  /** Other environments do not notice a change to one environment alone. */
  lemma OthersKeep(cfg: Config, s: State, s': State, e: nat)
    requires Inv(cfg, s) && e in s.envs && e in s'.envs
    requires s'.now == s.now && s'.shared == s.shared && s'.log == s.log && s'.envs == s.envs[e := s'.envs[e]]
    requires EnvOk(cfg, s', e) && Covered(cfg, s', e) && PassesCounted(cfg, s', e)
    ensures Inv(cfg, s')
  {
    forall d | d in s'.envs ensures EnvOk(cfg, s', d) && Covered(cfg, s', d) && PassesCounted(cfg, s', d) {
      if d != e {
        assert EnvOk(cfg, s, d) && Covered(cfg, s, d) && PassesCounted(cfg, s, d);
      }
    }
  }

  lemma ArriveKeepsInv(cfg: Config, s: State, e: nat, who: Who)
    requires Inv(cfg, s) && e in s.envs && s.envs[e].pc.Idle?
    ensures Inv(cfg, Next(cfg, s, Arrive(e, who)))
  {
    var s' := Next(cfg, s, Arrive(e, who));
    var index := WindowIndex(s.now, cfg.secs);
    var before, after := s.envs[e], s'.envs[e];
    assert EnvOk(cfg, s, e) && Covered(cfg, s, e) && PassesCounted(cfg, s, e);
    forall other: Who ensures
        CountOf(after.local, KeyOf(other)) ==
        (if before.local.index == index then CountOf(before.local, KeyOf(other)) else 0) + Due(after.pc, other)
    {
      KeyOfInjective(who, other);
    }
    assert PassesCounted(cfg, s', e) by {
      forall other: Who, w: int ensures
          Tally(s'.log, PassesBy(e, other, w)) + (if w == index then Due(after.pc, other) else 0)
          <= if w == index then CountOf(after.local, KeyOf(other)) else if w < index then cfg.max else 0
      {
        assert CountOf(before.local, KeyOf(other)) <= cfg.max;
        assert Tally(s.log, PassesBy(e, other, w)) <=
               if w == before.local.index then CountOf(before.local, KeyOf(other)) else if w < before.local.index then cfg.max else 0;
      }
    }
    OthersKeep(cfg, s, s', e);
  }

  lemma AskKeepsInv(cfg: Config, s: State, e: nat)
    requires Inv(cfg, s) && e in s.envs && s.envs[e].pc.Allowed?
    ensures Inv(cfg, Next(cfg, s, Ask(e)))
  {
    var s' := Next(cfg, s, Ask(e));
    assert EnvOk(cfg, s, e) && Covered(cfg, s, e) && PassesCounted(cfg, s, e);
    forall who: Who ensures Due(s'.envs[e].pc, who) == Due(s.envs[e].pc, who) {
    }
    OthersKeep(cfg, s, s', e);
  }

  /** How the shared counter may change when environment `e` gets its reply. */
  ghost predicate CounterStep(cfg: Config, s: State, e: nat, reply: Reply, shared: map<ItemKey, nat>)
    requires e in s.envs && s.envs[e].pc.Writing?
  {
    var pc := s.envs[e].pc;
    var w := WindowIndex(pc.asked, cfg.secs);
    match reply
    case Accepted => Shared(s, pc.who, w) < cfg.max && shared == Bumped(cfg, s, pc.who, w)
    case Rejected => Shared(s, pc.who, w) >= cfg.max && shared == s.shared
    case FailedOpen => shared == s.shared || shared == Bumped(cfg, s, pc.who, w)
  }

  lemma SharedNeverShrinks(cfg: Config, s: State, s': State, e: nat, reply: Reply)
    requires e in s.envs && s.envs[e].pc.Writing? && CounterStep(cfg, s, e, reply, s'.shared)
    ensures forall who: Who, w: int :: Shared(s, who, w) <= Shared(s', who, w)
    ensures reply == Accepted ==> var pc := s.envs[e].pc; var w := WindowIndex(pc.asked, cfg.secs);
              Shared(s', pc.who, w) == Shared(s, pc.who, w) + 1
  {
  }

  lemma AnswerKeepsSharedOk(cfg: Config, s: State, e: nat, reply: Reply, shared: map<ItemKey, nat>)
    requires SharedOk(cfg, s) && e in s.envs && s.envs[e].pc.Writing? && CounterStep(cfg, s, e, reply, shared)
    ensures SharedOk(cfg, Answered(cfg, s, e, reply).(shared := shared))
  {
    var s' := Answered(cfg, s, e, reply).(shared := shared);
    SharedNeverShrinks(cfg, s, s', e, reply);
    var ev := s'.log[|s.log|];
    forall who: Who, w: int ensures Tally(s'.log, AcceptedIn(who, w)) <= Shared(s', who, w) {
      TallySnoc(s.log, ev, AcceptedIn(who, w));
    }
  }

  /** The environment that got its reply: its request moves from `Due` to the counter or to the failures. */
  lemma AnswerKeepsCovered(cfg: Config, s: State, e: nat, reply: Reply, shared: map<ItemKey, nat>)
    requires Inv(cfg, s) && e in s.envs && s.envs[e].pc.Writing? && CounterStep(cfg, s, e, reply, shared)
    ensures Covered(cfg, Answered(cfg, s, e, reply).(shared := shared), e)
  {
    var s' := Answered(cfg, s, e, reply).(shared := shared);
    SharedNeverShrinks(cfg, s, s', e, reply);
    var env, ev := s.envs[e], s'.log[|s.log|];
    assert EnvOk(cfg, s, e) && Covered(cfg, s, e);
    if env.local.index == WindowIndex(s.now, cfg.secs) {
      WindowIndexMonotone(env.pc.asked, s.now, cfg.secs);
      forall who: Who ensures CountOf(env.local, KeyOf(who)) <=
        Shared(s', who, env.local.index) + Tally(s'.log, FailuresBy(e, who, env.local.index)) + Due(Idle, who)
      {
        TallySnoc(s.log, ev, FailuresBy(e, who, env.local.index));
        assert CountOf(env.local, KeyOf(who)) <=
          Shared(s, who, env.local.index) + Tally(s.log, FailuresBy(e, who, env.local.index)) + Due(env.pc, who);
      }
    }
  }

  lemma AnswerKeepsPasses(cfg: Config, s: State, e: nat, reply: Reply, shared: map<ItemKey, nat>)
    requires Inv(cfg, s) && e in s.envs && s.envs[e].pc.Writing?
    ensures PassesCounted(cfg, Answered(cfg, s, e, reply).(shared := shared), e)
  {
    var s' := Answered(cfg, s, e, reply).(shared := shared);
    var env, ev := s.envs[e], s'.log[|s.log|];
    assert PassesCounted(cfg, s, e);
    forall who: Who, w: int ensures
        Tally(s'.log, PassesBy(e, who, w)) + (if w == env.local.index then Due(Idle, who) else 0)
        <= if w == env.local.index then CountOf(env.local, KeyOf(who)) else if w < env.local.index then cfg.max else 0
    {
      TallySnoc(s.log, ev, PassesBy(e, who, w));
      assert Tally(s.log, PassesBy(e, who, w)) + (if w == env.local.index then Due(env.pc, who) else 0)
        <= if w == env.local.index then CountOf(env.local, KeyOf(who)) else if w < env.local.index then cfg.max else 0;
    }
  }

  /** The environments that were not answered see at most a larger shared counter. */
  lemma AnswerKeepsOthers(cfg: Config, s: State, e: nat, reply: Reply, shared: map<ItemKey, nat>, d: nat)
    requires Inv(cfg, s) && e in s.envs && s.envs[e].pc.Writing? && CounterStep(cfg, s, e, reply, shared)
    requires d in s.envs && d != e
    ensures var s' := Answered(cfg, s, e, reply).(shared := shared);
            EnvOk(cfg, s', d) && Covered(cfg, s', d) && PassesCounted(cfg, s', d)
  {
    var s' := Answered(cfg, s, e, reply).(shared := shared);
    SharedNeverShrinks(cfg, s, s', e, reply);
    var ev := s'.log[|s.log|];
    assert EnvOk(cfg, s, d) && Covered(cfg, s, d) && PassesCounted(cfg, s, d);
    forall who: Who, w: int ensures Tally(s'.log, FailuresBy(d, who, w)) == Tally(s.log, FailuresBy(d, who, w))
    {
      TallySnoc(s.log, ev, FailuresBy(d, who, w));
    }
    forall who: Who, w: int ensures Tally(s'.log, PassesBy(d, who, w)) == Tally(s.log, PassesBy(d, who, w))
    {
      TallySnoc(s.log, ev, PassesBy(d, who, w));
    }
  }

  lemma AnswerKeepsInv(cfg: Config, s: State, e: nat, reply: Reply, shared: map<ItemKey, nat>)
    requires Inv(cfg, s) && e in s.envs && s.envs[e].pc.Writing? && CounterStep(cfg, s, e, reply, shared)
    ensures Inv(cfg, Answered(cfg, s, e, reply).(shared := shared))
  {
    var s' := Answered(cfg, s, e, reply).(shared := shared);
    AnswerKeepsSharedOk(cfg, s, e, reply, shared);
    forall d | d in s'.envs ensures EnvOk(cfg, s', d) && Covered(cfg, s', d) && PassesCounted(cfg, s', d) {
      if d == e {
        assert EnvOk(cfg, s, e);
        AnswerKeepsCovered(cfg, s, e, reply, shared);
        AnswerKeepsPasses(cfg, s, e, reply, shared);
      } else {
        AnswerKeepsOthers(cfg, s, e, reply, shared, d);
      }
    }
    forall d: nat, who: Who, w: int | d !in s'.envs ensures Tally(s'.log, PassesBy(d, who, w)) == 0 {
      TallySnoc(s.log, s'.log[|s.log|], PassesBy(d, who, w));
    }
  }

  lemma NextKeepsInv(cfg: Config, s: State, step: Step)
    requires Inv(cfg, s)
    ensures Inv(cfg, Next(cfg, s, step))
  {
    match step
    case Tick(to) => if !Before(to, s.now) { TickKeepsInv(cfg, s, to); }
    case ColdStart(e) => if e !in s.envs { ColdStartKeepsInv(cfg, s, e); }
    case Arrive(e, who) => if e in s.envs && s.envs[e].pc.Idle? { ArriveKeepsInv(cfg, s, e, who); }
    case Ask(e) => if e in s.envs && s.envs[e].pc.Allowed? { AskKeepsInv(cfg, s, e); }
    case Update(e) =>
      if e in s.envs && s.envs[e].pc.Writing? {
        var pc := s.envs[e].pc;
        var w := WindowIndex(pc.asked, cfg.secs);
        AnswerKeepsInv(cfg, s, e, if Shared(s, pc.who, w) < cfg.max then Accepted else Rejected, Bumped(cfg, s, pc.who, w));
      }
    case Fail(e, applied) =>
      if e in s.envs && s.envs[e].pc.Writing? {
        AnswerKeepsInv(cfg, s, e, FailedOpen, Next(cfg, s, step).shared);
      }
  }

  lemma {:induction false} EveryRunKeepsInv(cfg: Config, s: State, steps: seq<Step>)
    requires Inv(cfg, s)
    ensures Inv(cfg, Run(cfg, s, steps))
    decreases |steps|
  {
    if steps != [] {
      EveryRunKeepsInv(cfg, s, steps[..|steps| - 1]);
      NextKeepsInv(cfg, Run(cfg, s, steps[..|steps| - 1]), steps[|steps| - 1]);
    }
  }

  // ---- the results -----------------------------------------------------------------------------

  /** The local tier refuses a request of `who` at this moment. */
  predicate RefusesLocally(cfg: Config, s: State, e: nat, who: Who) {
    && e in s.envs && s.envs[e].pc.Idle?
    && AllowLocal(s.envs[e].local, cfg.max, cfg.maxSubjects, WindowIndex(s.now, cfg.secs), KeyOf(who)).0 == Refused
  }

  /**
   A local refusal is covered by the shared counter up to the store failures this
   environment saw for the subject in this window; with none, the counter is spent and
   AllowRequest would refuse too.
   */
  lemma LocalRefusalIsSound(cfg: Config, s: State, steps: seq<Step>, e: nat, who: Who)
    requires Inv(cfg, s) && RefusesLocally(cfg, Run(cfg, s, steps), e, who)
    ensures var now := Run(cfg, s, steps);
            var w := WindowIndex(now.now, cfg.secs);
            var failures := Tally(now.log, FailuresBy(e, who, w));
            && cfg.max - failures <= Shared(now, who, w) <= cfg.max
            && (failures == 0 ==> Shared(now, who, w) == cfg.max && Bumped(cfg, now, who, w) == now.shared)
  {
    EveryRunKeepsInv(cfg, s, steps);
    var now := Run(cfg, s, steps);
    assert EnvOk(cfg, now, e) && Covered(cfg, now, e);
  }

  /** A full local table never refuses a subject it does not track: it is passed to the shared counter. */
  lemma FullTablePassesThrough(cfg: Config, s: State, e: nat, who: Who)
    requires e in s.envs && s.envs[e].pc.Idle?
    requires s.envs[e].local.index == WindowIndex(s.now, cfg.secs)
    requires KeyOf(who) !in s.envs[e].local.counts && |s.envs[e].local.counts| >= cfg.maxSubjects
    ensures Next(cfg, s, Arrive(e, who)).envs[e] == s.envs[e].(pc := Allowed(who, false))
  {
  }

  lemma {:induction false} PassesAreAcceptedOrFailed(log: seq<Event>, who: Who, w: int)
    ensures Tally(log, PassesIn(who, w)) == Tally(log, AcceptedIn(who, w)) + Tally(log, FailuresIn(who, w))
    decreases |log|
  {
    if log != [] {
      PassesAreAcceptedOrFailed(log[..|log| - 1], who, w);
    }
  }

  /** Requests let through in one window: at most the budget, plus one for each store failure. */
  lemma AdmissionPerWindow(cfg: Config, s: State, steps: seq<Step>, who: Who, w: int)
    requires Inv(cfg, s)
    ensures var log := Run(cfg, s, steps).log; Tally(log, PassesIn(who, w)) <= cfg.max + Tally(log, FailuresIn(who, w))
  {
    EveryRunKeepsInv(cfg, s, steps);
    var now := Run(cfg, s, steps);
    PassesAreAcceptedOrFailed(now.log, who, w);
    assert Tally(now.log, AcceptedIn(who, w)) <= Shared(now, who, w) <= cfg.max;
  }

  /** An interval one window long meets at most two windows. */
  lemma IntervalMeetsTwoWindows(from: Instant, t: Instant, secs: int)
    requires secs >= 1 && from.sec >= 0
    requires !Before(t, from) && Before(t, Plus(from, secs * NANOS_PER_SECOND))
    ensures WindowIndex(from, secs) <= WindowIndex(t, secs) <= WindowIndex(from, secs) + 1
  {
    WindowIndexMonotone(from, t, secs);
    BeforeIsLexicographic(t, from);
    assert Plus(from, secs * NANOS_PER_SECOND) == Instant(from.sec + secs, from.nanos);
    BeforeIsLexicographic(t, Instant(from.sec + secs, from.nanos));
    assert t.sec <= from.sec + secs;
    EuclidMonotone(t.sec, from.sec + secs, secs);
    var q := from.sec / secs;
    assert (q + 1) * secs == q * secs + secs && (q + 2) * secs == q * secs + 2 * secs;
    QuotientIs(from.sec + secs, secs, q + 1, from.sec % secs);
  }

  lemma {:induction false} IntervalTally(cfg: Config, log: seq<Event>, who: Who, from: Instant)
    requires from.sec >= 0
    requires forall i :: 0 <= i < |log| ==> log[i].counter == WindowIndex(log[i].asked, cfg.secs)
    ensures var w := WindowIndex(from, cfg.secs);
            Tally(log, AcceptedBetween(who, from, Plus(from, cfg.secs * NANOS_PER_SECOND)))
            <= Tally(log, AcceptedIn(who, w)) + Tally(log, AcceptedIn(who, w + 1))
    decreases |log|
  {
    if log != [] {
      var ev := log[|log| - 1];
      IntervalTally(cfg, log[..|log| - 1], who, from);
      if Matches(ev, AcceptedBetween(who, from, Plus(from, cfg.secs * NANOS_PER_SECOND))) {
        IntervalMeetsTwoWindows(from, ev.asked, cfg.secs);
      }
    }
  }

  lemma {:induction false} IntervalPasses(log: seq<Event>, who: Who, from: Instant, to: Instant)
    ensures Tally(log, PassesBetween(who, from, to)) ==
            Tally(log, AcceptedBetween(who, from, to)) + Tally(log, FailuresBetween(who, from, to))
    decreases |log|
  {
    if log != [] {
      IntervalPasses(log[..|log| - 1], who, from, to);
    }
  }

  /**
   Over any interval one window long the counter accepts at most twice the budget, and
   what passes beyond that passed because the counter failed within the interval.
   */
  lemma AdmissionPerInterval(cfg: Config, s: State, steps: seq<Step>, who: Who, from: Instant)
    requires Inv(cfg, s) && from.sec >= 0
    ensures var log := Run(cfg, s, steps).log;
            var to := Plus(from, cfg.secs * NANOS_PER_SECOND);
            && Tally(log, AcceptedBetween(who, from, to)) <= 2 * cfg.max
            && Tally(log, PassesBetween(who, from, to)) <= 2 * cfg.max + Tally(log, FailuresBetween(who, from, to))
  {
    EveryRunKeepsInv(cfg, s, steps);
    var now, w := Run(cfg, s, steps), WindowIndex(from, cfg.secs);
    IntervalTally(cfg, now.log, who, from);
    IntervalPasses(now.log, who, from, Plus(from, cfg.secs * NANOS_PER_SECOND));
    assert Tally(now.log, AcceptedIn(who, w)) <= Shared(now, who, w) <= cfg.max;
    assert Tally(now.log, AcceptedIn(who, w + 1)) <= Shared(now, who, w + 1) <= cfg.max;
  }

  /** With the store failing arbitrarily, one environment still lets a tracked subject through at most `max` times a window. */
  lemma AdmissionPerEnvironment(cfg: Config, s: State, steps: seq<Step>, e: nat, who: Who, w: int)
    requires Inv(cfg, s)
    ensures Tally(Run(cfg, s, steps).log, PassesBy(e, who, w)) <= cfg.max
  {
    EveryRunKeepsInv(cfg, s, steps);
    var now := Run(cfg, s, steps);
    if e in now.envs {
      assert EnvOk(cfg, now, e) && PassesCounted(cfg, now, e);
      assert Tally(now.log, PassesBy(e, who, w)) <=
        if w == now.envs[e].local.index then CountOf(now.envs[e].local, KeyOf(who)) else if w < now.envs[e].local.index then cfg.max else 0;
    }
  }

  // ---- the failure bound is tight ---------------------------------------------------------------

  /** `n` requests of one environment within one instant, the first `failures` of them failing before the counter is reached. */
  function Burst(who: Who, n: nat, failures: nat): seq<Step> {
    if n == 0 then [ColdStart(0)]
    else Burst(who, n - 1, failures) + [Arrive(0, who)] + [Ask(0)] + [if n <= failures then Fail(0, false) else Update(0)]
  }

  lemma RunSnoc(cfg: Config, s: State, steps: seq<Step>, step: Step)
    ensures Run(cfg, s, steps + [step]) == Next(cfg, Run(cfg, s, steps), step)
  {
    assert (steps + [step])[..|steps|] == steps;
  }

  /** One request of a subject with budget left: the local count rises, the shared one only if the counter is reached. */
  lemma OneRequest(cfg: Config, s: State, who: Who, fails: bool)
    requires 0 in s.envs && s.envs[0].pc == Idle && cfg.maxSubjects >= 1
    requires var w := WindowIndex(s.now, cfg.secs);
             var l := AllowedWindow(s.envs[0].local, w);
             && CountOf(l, KeyOf(who)) < cfg.max
             && (KeyOf(who) in l.counts || l.counts == map[])
             && Shared(s, who, w) < cfg.max
    ensures var w := WindowIndex(s.now, cfg.secs);
            var after := Next(cfg, Next(cfg, Next(cfg, s, Arrive(0, who)), Ask(0)), if fails then Fail(0, false) else Update(0));
            && after.now == s.now
            && 0 in after.envs && after.envs[0].pc == Idle && after.envs[0].local.index == w
            && KeyOf(who) in after.envs[0].local.counts
            && CountOf(after.envs[0].local, KeyOf(who)) == CountOf(AllowedWindow(s.envs[0].local, w), KeyOf(who)) + 1
            && Shared(after, who, w) == Shared(s, who, w) + if fails then 0 else 1
  {
    var w := WindowIndex(s.now, cfg.secs);
    var arrived := Next(cfg, s, Arrive(0, who));
    assert arrived.envs[0].pc == Allowed(who, true) && arrived.shared == s.shared;
    var asked := Next(cfg, arrived, Ask(0));
    assert asked.envs[0] == arrived.envs[0].(pc := Writing(who, true, s.now)) && asked.shared == s.shared;
  }

  /** After `n` requests the local count is `n` and the shared one lacks exactly the failures. */
  ghost predicate AfterRequests(cfg: Config, now: State, start: Instant, who: Who, n: nat, failures: nat) {
    var w := WindowIndex(start, cfg.secs);
    && now.now == start
    && 0 in now.envs && now.envs[0].pc == Idle
    && CountOf(AllowedWindow(now.envs[0].local, w), KeyOf(who)) == n
    && (KeyOf(who) in AllowedWindow(now.envs[0].local, w).counts || AllowedWindow(now.envs[0].local, w).counts == map[])
    && Shared(now, who, w) == n - Min(n, failures)
  }

  function Served(cfg: Config, s: State, who: Who, fails: bool): State {
    Next(cfg, Next(cfg, Next(cfg, s, Arrive(0, who)), Ask(0)), if fails then Fail(0, false) else Update(0))
  }

  lemma BurstSnoc(cfg: Config, s: State, who: Who, n: nat, failures: nat)
    requires n > 0
    ensures Run(cfg, s, Burst(who, n, failures)) == Served(cfg, Run(cfg, s, Burst(who, n - 1, failures)), who, n <= failures)
  {
    var a := Burst(who, n - 1, failures);
    RunSnoc(cfg, s, a, Arrive(0, who));
    RunSnoc(cfg, s, a + [Arrive(0, who)], Ask(0));
    RunSnoc(cfg, s, a + [Arrive(0, who)] + [Ask(0)], if n <= failures then Fail(0, false) else Update(0));
  }

  lemma OneMoreRequest(cfg: Config, s: State, start: Instant, who: Who, n: nat, failures: nat)
    requires 0 < n <= cfg.max && cfg.maxSubjects >= 1 && AfterRequests(cfg, s, start, who, n - 1, failures)
    ensures AfterRequests(cfg, Served(cfg, s, who, n <= failures), start, who, n, failures)
  {
    OneRequest(cfg, s, who, n <= failures);
  }

  lemma {:induction false} AfterBurst(cfg: Config, s: State, who: Who, n: nat, failures: nat)
    requires Initial(s) && n <= cfg.max && cfg.maxSubjects >= 1
    ensures AfterRequests(cfg, Run(cfg, s, Burst(who, n, failures)), s.now, who, n, failures)
    decreases n
  {
    if n == 0 {
      RunSnoc(cfg, s, [], ColdStart(0));
      assert [] + [ColdStart(0)] == Burst(who, 0, failures);
    } else {
      AfterBurst(cfg, s, who, n - 1, failures);
      BurstSnoc(cfg, s, who, n, failures);
      OneMoreRequest(cfg, Run(cfg, s, Burst(who, n - 1, failures)), s.now, who, n, failures);
    }
  }

  /** The counts that apply in window `w`. */
  function AllowedWindow(l: Local, w: int): Local { if w == l.index then l else Local(w, map[]) }

  /**
   For every budget and every number of failures up to it, some run ends in a local
   refusal while the shared counter is short of the budget by exactly that many: the
   "no store failure in this window" hypothesis cannot be dropped.
   */
  lemma FailuresMakeRefusalsEarly(cfg: Config, s: State, who: Who, failures: nat)
    requires Initial(s) && failures <= cfg.max && cfg.maxSubjects >= 1
    ensures var now := Run(cfg, s, Burst(who, cfg.max, failures));
            RefusesLocally(cfg, now, 0, who) && Shared(now, who, WindowIndex(now.now, cfg.secs)) == cfg.max - failures
  {
    AfterBurst(cfg, s, who, cfg.max, failures);
  }
}
