/**
 The runtime settings document (internal/store/dynamodb/settings.go, cmd/auth/settings.go).
 Administrators and cold starts patch one item at the same time, each through a read and a
 conditional put that is retried when the item moved on. What a run of them leaves is what
 the patches leave one after the other; what a seed may undo is said exactly.
 */
module RuntimeSettings {
  import opened Bytes
  import opened Histories

  /** The keys a document holds; a key it lacks is absent, not default. */
  type Doc = map<string, int>

  type Log = seq<Entry<string, int>>

  const PATCH_ATTEMPTS := 16

  /** The lock token as an instant; None is a document nobody has written. */
  type Stamp = Option<int>

  /** nextStamp: the clock, unless it has not moved past the token observed. */
  function NextStamp(observed: Stamp, now: int): (r: int)
    ensures observed.Some? ==> r > observed.value
  {
    if observed.None? || now > observed.value then now else observed.value + 1
  }

  datatype Answer = Success | NothingToDo | Failure

  datatype Call =
    | Seeding(declared: Doc)
    | Wants(patch: Doc, origin: Origin)
    | Patching(patch: Doc, origin: Origin, base: Doc, observed: Stamp, attempt: nat)
    | Done(answer: Answer, patch: Doc)

  /** The item, its lock token, every put that landed, and the calls in flight. */
  datatype State = State(doc: Doc, stamp: Stamp, log: Log, calls: map<nat, Call>)

  datatype Step =
    | Edit(call: nat, patch: Doc)
    | ColdStart(call: nat, declared: Doc)
    | SeedRead(call: nat)
    | Read(call: nat)
    | Put(call: nat, now: int, replyLost: bool)
    | Fault(call: nat)

  /** The patch a seed builds: what is declared and the document does not hold. */
  function Missing(declared: Doc, doc: Doc): Doc {
    map k | k in declared && k !in doc :: declared[k]
  }

  /** The conditional put: it lands on the document the call read, or the call starts over from the one it finds. */
  function PutStep(s: State, c: nat, now: int, replyLost: bool): State
    requires c in s.calls && s.calls[c].Patching?
  {
    var call := s.calls[c];
    if call.observed == s.stamp then
      State(call.base + call.patch, Some(NextStamp(call.observed, now)),
            s.log + [Entry(call.patch, call.origin, c)], s.calls[c := Done(if replyLost then Failure else Success, call.patch)])
    else if call.attempt == PATCH_ATTEMPTS - 1 then s.(calls := s.calls[c := Done(Failure, call.patch)])
    else s.(calls := s.calls[c := Patching(call.patch, call.origin, s.doc, s.stamp, call.attempt + 1)])
  }

  function Next(s: State, step: Step): State {
    match step
    case Edit(c, patch) =>
      if c in s.calls then s else s.(calls := s.calls[c := Wants(patch, Admin)])
    case ColdStart(c, declared) =>
      if c in s.calls then s
      else s.(calls := s.calls[c := if declared == map[] then Done(NothingToDo, map[]) else Seeding(declared)])
    case SeedRead(c) =>
      if c !in s.calls || !s.calls[c].Seeding? then s
      else
        var patch := Missing(s.calls[c].declared, s.doc);
        s.(calls := s.calls[c := if patch == map[] then Done(NothingToDo, map[]) else Wants(patch, Seed(|s.log|))])
    case Read(c) =>
      if c !in s.calls || !s.calls[c].Wants? then s
      else s.(calls := s.calls[c := Patching(s.calls[c].patch, s.calls[c].origin, s.doc, s.stamp, 0)])
    case Put(c, now, replyLost) =>
      if c !in s.calls || !s.calls[c].Patching? then s else PutStep(s, c, now, replyLost)
    case Fault(c) =>
      if c !in s.calls || s.calls[c].Done? then s else s.(calls := s.calls[c := Done(Failure, map[])])
  }

  const EMPTY := State(map[], None, [], map[])

  function Run(s: State, steps: seq<Step>): State {
    if steps == [] then s else Next(Run(s, steps[..|steps| - 1]), steps[|steps| - 1])
  }

  lemma RunSnoc(s: State, steps: seq<Step>, step: Step)
    ensures Run(s, steps + [step]) == Next(Run(s, steps), step)
  {
    assert (steps + [step])[..|steps|] == steps;
  }

  // ---- no update is lost ------------------------------------------------------------

  /** Tokens only grow, so a call whose token is still the item's has the item's content. */
  ghost predicate BasesAreCurrent(s: State) {
    forall c :: c in s.calls && s.calls[c].Patching? ==>
      var call := s.calls[c];
      && (call.observed == s.stamp ==> call.base == s.doc)
      && (call.observed.Some? ==> s.stamp.Some? && call.observed.value <= s.stamp.value)
  }

  ghost predicate Inv(s: State) { s.doc == MergeAll(s.log) && BasesAreCurrent(s) }

  /** A larger token and a new content leave every other call behind. */
  lemma NewTokenKeepsBases(s: State, after: State, c: nat, answer: Answer, patch: Doc)
    requires BasesAreCurrent(s) && c in s.calls
    requires after.stamp.Some? && (s.stamp.Some? ==> after.stamp.value > s.stamp.value)
    requires after.calls == s.calls[c := Done(answer, patch)]
    ensures BasesAreCurrent(after)
  {
    forall d | d in after.calls && after.calls[d].Patching?
      ensures after.calls[d].observed != after.stamp
      ensures after.calls[d].observed.Some? ==> after.calls[d].observed.value <= after.stamp.value
    {
      assert d in s.calls && s.calls[d] == after.calls[d];
    }
  }

  lemma PutKeepsInv(s: State, c: nat, now: int, replyLost: bool)
    requires Inv(s) && c in s.calls && s.calls[c].Patching?
    ensures Inv(PutStep(s, c, now, replyLost))
  {
    var call, after := s.calls[c], PutStep(s, c, now, replyLost);
    if call.observed == s.stamp {
      MergeAllSnoc(s.log, Entry(call.patch, call.origin, c));
      NewTokenKeepsBases(s, after, c, if replyLost then Failure else Success, call.patch);
    }
  }

  lemma StepKeepsInv(s: State, step: Step)
    requires Inv(s)
    ensures Inv(Next(s, step))
  {
    if step.Put? {
      if step.call in s.calls && s.calls[step.call].Patching? {
        PutKeepsInv(s, step.call, step.now, step.replyLost);
      }
    } else {
      var after := Next(s, step);
      assert after.doc == s.doc && after.stamp == s.stamp && after.log == s.log;
    }
  }

  /** Whatever interleaves, the document is the landed patches in the order they landed, none lost. */
  lemma {:induction false} EveryRunIsItsPatchesInOrder(steps: seq<Step>)
    ensures Inv(Run(EMPTY, steps))
    ensures Run(EMPTY, steps).doc == MergeAll(Run(EMPTY, steps).log)
    decreases |steps|
  {
    if steps != [] {
      EveryRunIsItsPatchesInOrder(steps[..|steps| - 1]);
      StepKeepsInv(Run(EMPTY, steps[..|steps| - 1]), steps[|steps| - 1]);
    }
  }

  // ---- every call lands at most once -----------------------------------------------------

  ghost predicate LandsAt(log: Log, c: nat, i: int) { 0 <= i < |log| && log[i].call == c }

  /** One entry of the log is the call's, and it is the patch the call asked for. */
  ghost predicate LandedOnce(log: Log, c: nat, patch: Doc) {
    exists i :: LandsAt(log, c, i) && log[i].patch == patch && forall j :: LandsAt(log, c, j) ==> j == i
  }

  ghost predicate NeverLanded(log: Log, c: nat) { forall i :: !LandsAt(log, c, i) }

  /** Calls that have not answered have not landed; a success has, once; a failure once or not at all. */
  ghost predicate CallAccounted(log: Log, calls: map<nat, Call>, c: nat) {
    if c !in calls || !calls[c].Done? || calls[c].answer == NothingToDo then NeverLanded(log, c)
    else LandedOnce(log, c, calls[c].patch) || (calls[c].answer == Failure && NeverLanded(log, c))
  }

  ghost predicate AllAccounted(s: State) { forall c :: CallAccounted(s.log, s.calls, c) }

  lemma LandingAccounts(log: Log, e: Entry<string, int>)
    requires NeverLanded(log, e.call)
    ensures LandedOnce(log + [e], e.call, e.patch)
  {
    var more := log + [e];
    assert LandsAt(more, e.call, |log|);
    forall j | LandsAt(more, e.call, j) ensures j == |log| {
      assert j < |log| ==> LandsAt(log, e.call, j);
    }
  }

  lemma OthersStayAccounted(log: Log, e: Entry<string, int>, calls: map<nat, Call>, c: nat)
    requires c != e.call && CallAccounted(log, calls, c)
    ensures CallAccounted(log + [e], calls, c)
  {
    var more := log + [e];
    assert forall i :: LandsAt(more, c, i) <==> LandsAt(log, c, i);
    if c in calls && calls[c].Done? && LandedOnce(log, c, calls[c].patch) {
      var i :| LandsAt(log, c, i) && log[i].patch == calls[c].patch && forall j :: LandsAt(log, c, j) ==> j == i;
      assert LandsAt(more, c, i) && more[i].patch == calls[c].patch;
    }
  }

  lemma PutKeepsAccounted(s: State, c: nat, now: int, replyLost: bool)
    requires AllAccounted(s) && c in s.calls && s.calls[c].Patching?
    ensures AllAccounted(PutStep(s, c, now, replyLost))
  {
    var after := PutStep(s, c, now, replyLost);
    assert CallAccounted(s.log, s.calls, c);
    if s.calls[c].observed == s.stamp {
      LandingAccounts(s.log, Entry(s.calls[c].patch, s.calls[c].origin, c));
    }
    forall d ensures CallAccounted(after.log, after.calls, d) {
      assert CallAccounted(s.log, s.calls, d);
      if d != c && s.calls[c].observed == s.stamp {
        OthersStayAccounted(s.log, Entry(s.calls[c].patch, s.calls[c].origin, c), s.calls, d);
      }
    }
  }

  lemma StepKeepsAccounted(s: State, step: Step)
    requires AllAccounted(s)
    ensures AllAccounted(Next(s, step))
  {
    if step.Put? && step.call in s.calls && s.calls[step.call].Patching? {
      PutKeepsAccounted(s, step.call, step.now, step.replyLost);
    } else {
      var after := Next(s, step);
      assert after.log == s.log;
      forall d ensures CallAccounted(after.log, after.calls, d) {
        assert CallAccounted(s.log, s.calls, d);
      }
    }
  }

  lemma {:induction false} EveryRunAccountsForCalls(steps: seq<Step>)
    ensures AllAccounted(Run(EMPTY, steps))
    decreases |steps|
  {
    if steps != [] {
      EveryRunAccountsForCalls(steps[..|steps| - 1]);
      StepKeepsAccounted(Run(EMPTY, steps[..|steps| - 1]), steps[|steps| - 1]);
    }
  }

  /** In every run a call that has answered success has exactly one landed put, its own patch; one with nothing to do has none. */
  lemma SuccessLandsOnce(steps: seq<Step>, c: nat)
    requires c in Run(EMPTY, steps).calls && Run(EMPTY, steps).calls[c].Done?
    ensures var s := Run(EMPTY, steps);
            && (s.calls[c].answer == Success ==> LandedOnce(s.log, c, s.calls[c].patch))
            && (s.calls[c].answer == NothingToDo ==> NeverLanded(s.log, c))
  {
    EveryRunAccountsForCalls(steps);
    assert CallAccounted(Run(EMPTY, steps).log, Run(EMPTY, steps).calls, c);
  }

  // ---- seeds and edits ------------------------------------------------------------------------

  ghost predicate SeedsAreHonest(s: State) {
    && (forall c :: c in s.calls && (s.calls[c].Wants? || s.calls[c].Patching?) ==>
          SeedReadIsHonest(s.log, s.calls[c].patch.Keys, s.calls[c].origin))
    && HonestLog(s.log)
  }

  lemma StepKeepsSeedsHonest(s: State, step: Step)
    requires Inv(s) && SeedsAreHonest(s)
    ensures SeedsAreHonest(Next(s, step))
  {
    var after := Next(s, step);
    if step.SeedRead? && step.call in s.calls && s.calls[step.call].Seeding? {
      ReadingIsHonest(s.log, Missing(s.calls[step.call].declared, s.doc).Keys);
    }
    if after.log != s.log {
      var call := s.calls[step.call];
      var e := Entry(call.patch, call.origin, step.call);
      HonestLogGrows(s.log, e);
      forall c | c in after.calls && (after.calls[c].Wants? || after.calls[c].Patching?)
        ensures SeedReadIsHonest(after.log, after.calls[c].patch.Keys, after.calls[c].origin)
      {
        HonestyLasts(s.log, [e], s.calls[c].patch.Keys, s.calls[c].origin);
      }
    }
  }

  lemma {:induction false} EveryRunKeepsSeedsHonest(steps: seq<Step>)
    ensures SeedsAreHonest(Run(EMPTY, steps))
    decreases |steps|
  {
    if steps != [] {
      EveryRunKeepsSeedsHonest(steps[..|steps| - 1]);
      EveryRunIsItsPatchesInOrder(steps[..|steps| - 1]);
      StepKeepsSeedsHonest(Run(EMPTY, steps[..|steps| - 1]), steps[|steps| - 1]);
    }
  }

  /**
   Over any run of cold starts, with any documents, and edits: a key holds the value of its last
   landed patch, and that is its last edit exactly when the edit landed inside no seed's window.
   */
  lemma TheLastEditStands(steps: seq<Step>, k: string, e: nat)
    requires IsLastEdit(Run(EMPTY, steps).log, k, e)
    ensures var s := Run(EMPTY, steps);
            && Mentions(s.log, k) && k in s.doc && s.doc[k] == s.log[LastMention(s.log, k)].patch[k]
            && (LastMention(s.log, k) == e <==> forall j :: 0 <= j < |s.log| && Inside(s.log, e, j) ==> k !in s.log[j].patch)
  {
    var s := Run(EMPTY, steps);
    EveryRunIsItsPatchesInOrder(steps);
    EveryRunKeepsSeedsHonest(steps);
    LastEditStandsIff(s.log, k, e);
    LastMentionWins(s.log, k);
  }

  /**
   Until there has been an edit, the first seed of a key stands exactly when it landed inside no
   other seed's window; of two cold starts that overlap with different documents the later one wins.
   */
  lemma TheFirstSeedStands(steps: seq<Step>, k: string, first: nat)
    requires IsFirstMention(Run(EMPTY, steps).log, k, first) && !Edited(Run(EMPTY, steps).log, k)
    ensures var s := Run(EMPTY, steps);
            && s.log[first].origin.Seed? && Mentions(s.log, k)
            && k in s.doc && s.doc[k] == s.log[LastMention(s.log, k)].patch[k]
            && (LastMention(s.log, k) == first <==> forall j :: 0 <= j < |s.log| && Inside(s.log, first, j) ==> k !in s.log[j].patch)
  {
    var s := Run(EMPTY, steps);
    EveryRunIsItsPatchesInOrder(steps);
    EveryRunKeepsSeedsHonest(steps);
    FirstSeedStandsIff(s.log, k, first);
    LastMentionWins(s.log, k);
  }

  // ---- what lands inside a window ------------------------------------------------------------

  function One(value: int): Doc { map["k" := value] }

  /** A cold start declaring `value` has read the empty document. */
  lemma SeedHasRead(before: seq<Step>, c: nat, value: int)
    requires var s := Run(EMPTY, before); s.doc == map[] && s.log == [] && c !in s.calls
    ensures var s := Run(EMPTY, before);
            Run(EMPTY, before + [ColdStart(c, One(value))] + [SeedRead(c)]) == s.(calls := s.calls[c := Wants(One(value), Seed(0))])
  {
    var s := Run(EMPTY, before);
    RunSnoc(EMPTY, before, ColdStart(c, One(value)));
    RunSnoc(EMPTY, before + [ColdStart(c, One(value))], SeedRead(c));
    OneIsMissing(value);
    assert Next(s, ColdStart(c, One(value))) == s.(calls := s.calls[c := Seeding(One(value))]);
    assert s.calls[c := Seeding(One(value))][c := Wants(One(value), Seed(0))] == s.calls[c := Wants(One(value), Seed(0))];
  }

  lemma OneIsMissing(value: int)
    ensures One(value) != map[] && Missing(One(value), map[]) == One(value)
  {
    assert "k" in One(value);
  }

  /** A call that wants to patch reads and puts with nothing in between. */
  lemma WantedLands(before: seq<Step>, c: nat, now: int)
    requires var s := Run(EMPTY, before); c in s.calls && s.calls[c].Wants?
    ensures var s := Run(EMPTY, before);
            var call := s.calls[c];
            Run(EMPTY, before + [Read(c)] + [Put(c, now, false)]) ==
            State(s.doc + call.patch, Some(NextStamp(s.stamp, now)), s.log + [Entry(call.patch, call.origin, c)],
                  s.calls[c := Done(Success, call.patch)])
  {
    RunSnoc(EMPTY, before, Read(c));
    RunSnoc(EMPTY, before + [Read(c)], Put(c, now, false));
  }

  /** A seed's read and its put are two calls: an edit that lands between them is overwritten. */
  lemma AnEditInsideTheWindowIsUndone() returns (steps: seq<Step>)
    ensures var s := Run(EMPTY, steps);
            s.log == [Entry(One(2), Admin, 1), Entry(One(1), Seed(0), 0)] && s.doc == One(1)
    ensures Run(EMPTY, steps).calls == map[0 := Done(Success, One(1)), 1 := Done(Success, One(2))]
  {
    SeedHasRead([], 0, 1);
    var cold := [] + [ColdStart(0, One(1))] + [SeedRead(0)];
    RunSnoc(EMPTY, cold, Edit(1, One(2)));
    WantedLands(cold + [Edit(1, One(2))], 1, 5);
    var edited := cold + [Edit(1, One(2))] + [Read(1)] + [Put(1, 5, false)];
    WantedLands(edited, 0, 6);
    steps := edited + [Read(0)] + [Put(0, 6, false)];
  }

  /** Two cold starts with different documents overlap: both report a seeded key, and the second one's value stays. */
  lemma OverlappingSeedsLastWins() returns (steps: seq<Step>)
    ensures var s := Run(EMPTY, steps);
            s.log == [Entry(One(1), Seed(0), 0), Entry(One(2), Seed(0), 1)] && s.doc == One(2)
    ensures Run(EMPTY, steps).calls == map[0 := Done(Success, One(1)), 1 := Done(Success, One(2))]
  {
    SeedHasRead([], 0, 1);
    var one := [] + [ColdStart(0, One(1))] + [SeedRead(0)];
    SeedHasRead(one, 1, 2);
    var both := one + [ColdStart(1, One(2))] + [SeedRead(1)];
    WantedLands(both, 0, 5);
    var first := both + [Read(0)] + [Put(0, 5, false)];
    WantedLands(first, 1, 6);
    steps := first + [Read(1)] + [Put(1, 6, false)];
  }

  // ---- the code --------------------------------------------------------------------------------

  /** RuntimeSettings as a document declares them; an absent list differs from an empty one. */
  datatype Declaration = Declaration(require2fa: bool, enabledWebhookActions: Option<int>, gracePeriodDays: int)

  const DEFAULTS := Declaration(false, None, 7)

  const REQUIRE_2FA := "runtimeSettings.require2fa"
  const WEBHOOK_ACTIONS := "runtimeSettings.enabledWebhookActions"
  const GRACE_PERIOD := "runtimeSettings.lazyEmailVerificationGracePeriodDays"

  /** declaredRuntimeSettings: what the document moved away from the default, in schema order. */
  function Declared(d: Declaration): (keys: seq<(string, int)>)
    ensures forall value :: (REQUIRE_2FA, value) in keys <==> d.require2fa && value == 1
    ensures forall value :: (WEBHOOK_ACTIONS, value) in keys <==> d.enabledWebhookActions == Some(value)
    ensures forall value :: (GRACE_PERIOD, value) in keys <==> d.gracePeriodDays == value && value != 7
    ensures forall i, j :: 0 <= i < j < |keys| ==> keys[i].0 != keys[j].0
    ensures keys == [] <==> d == DEFAULTS
  {
    (if d.require2fa != DEFAULTS.require2fa then [(REQUIRE_2FA, 1)] else [])
    + (if d.enabledWebhookActions.Some? then [(WEBHOOK_ACTIONS, d.enabledWebhookActions.value)] else [])
    + (if d.gracePeriodDays != DEFAULTS.gracePeriodDays then [(GRACE_PERIOD, d.gracePeriodDays)] else [])
  }

  function AsDoc(keys: seq<(string, int)>): Doc {
    if keys == [] then map[] else AsDoc(keys[..|keys| - 1])[keys[|keys| - 1].0 := keys[|keys| - 1].1]
  }

  class SettingsStore {
    var doc: Doc
    var puts: nat

    constructor ()
      ensures doc == map[] && puts == 0
    {
      doc, puts := map[], 0;
    }

    /** seedRuntimeSettings, with no other writer in between: absent declared keys are filled, held ones kept. */
    method SeedRuntimeSettings(keys: seq<(string, int)>) returns (seeded: seq<string>, kept: seq<string>)
      requires forall i, j :: 0 <= i < j < |keys| ==> keys[i].0 != keys[j].0
      modifies this
      ensures doc == old(doc) + Missing(AsDoc(keys), old(doc))
      ensures forall k :: k in kept <==> k in AsDoc(keys) && k in old(doc)
      ensures forall k :: k in seeded <==> k in AsDoc(keys) && k !in old(doc)
      ensures puts == old(puts) + if seeded == [] then 0 else 1
    {
      seeded, kept := [], [];
      if keys == [] {
        return;
      }
      var patch: Doc := map[];
      for i := 0 to |keys|
        invariant patch == Missing(AsDoc(keys[..i]), doc)
        invariant forall k :: k in kept <==> k in AsDoc(keys[..i]) && k in doc
        invariant forall k :: k in seeded <==> k in AsDoc(keys[..i]) && k !in doc
        invariant doc == old(doc) && puts == old(puts)
      {
        assert keys[..i + 1][..i] == keys[..i];
        if keys[i].0 in doc {
          kept := kept + [keys[i].0];
        } else {
          patch := patch[keys[i].0 := keys[i].1];
          seeded := seeded + [keys[i].0];
        }
      }
      assert keys[..|keys|] == keys;
      if seeded == [] {
        assert patch == map[] by {
          assert forall k :: k in patch ==> k in seeded;
        }
        return;
      }
      doc := doc + patch;
      puts := puts + 1;
    }
  }

  /** A cold start on an unchanged document writes nothing, and no cold start moves a key that is held. */
  lemma SeedingTwiceIsSeedingOnce(declared: Doc, doc: Doc)
    ensures var once := doc + Missing(declared, doc);
            && Missing(declared, once) == map[]
            && (forall k :: k in doc ==> k in once && once[k] == doc[k])
            && (forall k :: k in declared ==> k in once)
  {
  }
}
