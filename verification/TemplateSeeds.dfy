/**
 Seeding the template directory (cmd/auth/email.go): a first pass validates every file and
 a second writes the templates the store does not hold. The store wins for ever afterwards,
 so what a stopped second pass has written is pinned.
 */
module TemplateSeeds {
  import opened Bytes
  import opened Histories
  import opened Keys

  /** A language's texts by key; what a translation says is not read here. */
  type Translations = map<string, map<string, string>>

  /** A stored template: a mail's two base bodies, "" twice for a page, and the translations. */
  datatype Template = Template(html: string, text: string, translations: Translations)

  type Store = map<ItemKey, Template>

  // ---- files ---------------------------------------------------------------------------

  /** A file's JSON, strictly decoded in the shape its name calls for; Unreadable is any read, size or decoding error. */
  datatype Content =
    | Unreadable
    | MailDocument(id: string, html: string, text: string, translations: Option<Translations>)
    | PageDocument(page: string, texts: Translations)

  /** One directory entry; `bytes` is what its item would measure in the store. */
  datatype File = File(name: string, isDir: bool, content: Content, bytes: nat)

  const JSON_SUFFIX := ".json"
  const PAGE_SUFFIX := ".ui.json"
  const MAX_TEMPLATE_BYTES := 307200

  predicate EndsWith(s: string, suffix: string) { |suffix| <= |s| && s[|s| - |suffix|..] == suffix }

  function CutSuffix(s: string, suffix: string): (r: string)
    requires EndsWith(s, suffix)
    ensures s == r + suffix
  {
    s[..|s| - |suffix|]
  }

  predicate IsSeedFile(f: File) { !f.isDir && !(f.name != "" && f.name[0] == '.') && EndsWith(f.name, JSON_SUFFIX) }

  predicate IsPage(f: File) { EndsWith(f.name, PAGE_SUFFIX) }

  /** checkTranslations: an empty key, at either level, is the one shape that cannot be stored. */
  predicate ValidTranslations(t: Translations) {
    "" !in t && forall lang :: lang in t ==> "" !in t[lang]
  }

  /** A file that passed the first pass; a mail file may name no translations. */
  datatype Pending = Pending(key: ItemKey, html: string, text: string, translations: Option<Translations>, bytes: nat)

  /** What the file leaves in the store: a mail patch keeps the stored translations it does not name. */
  function Written(stored: Option<Template>, p: Pending): Template {
    Template(p.html, p.text,
             match p.translations
             case Some(t) => t
             case None => match stored case Some(template) => template.translations case None => map[])
  }

  /** The entry of a template the store does not hold. */
  function NewEntry(p: Pending): Template { Written(None, p) }

  /** What the first pass finds wrong with a file or takes from it. */
  function Decode(f: File): Option<Pending>
    requires IsSeedFile(f)
  {
    if IsPage(f) then
      var page := CutSuffix(f.name, PAGE_SUFFIX);
      if !f.content.PageDocument? || page == "" || (f.content.page != "" && f.content.page != page) || f.content.texts == map[] then None
      else Some(Pending(UiTranslation(page), "", "", Some(f.content.texts), f.bytes))
    else
      var id := CutSuffix(f.name, JSON_SUFFIX);
      if !f.content.MailDocument? || id == "" || (f.content.id != "" && f.content.id != id) || f.content.html == "" || f.content.text == "" then None
      else Some(Pending(MailTemplate(id), f.content.html, f.content.text, f.content.translations, f.bytes))
  }

  /** The seed files of one kind, decoded, in directory order. */
  function Collect(files: seq<File>, pages: bool): seq<Pending> {
    if files == [] then []
    else
      var n := |files| - 1;
      var f := files[n];
      Collect(files[..n], pages) + if IsSeedFile(f) && IsPage(f) == pages && Decode(f).Some? then [Decode(f).value] else []
  }

  predicate AnyBad(files: seq<File>) {
    exists i :: 0 <= i < |files| && IsSeedFile(files[i]) && Decode(files[i]).None?
  }

  /** The second pass: mails first, then pages. */
  function Plan(files: seq<File>): seq<Pending> { Collect(files, false) + Collect(files, true) }

  ghost predicate DistinctPlan(plan: seq<Pending>) {
    forall i, j :: 0 <= i < j < |plan| ==> plan[i].key != plan[j].key
  }

  ghost predicate DistinctNames(files: seq<File>) {
    forall i, j :: 0 <= i < j < |files| ==> files[i].name != files[j].name
  }

  /** The file a planned entry came from. */
  lemma {:induction false} CollectedFrom(files: seq<File>, pages: bool, i: nat) returns (j: nat)
    requires i < |Collect(files, pages)|
    ensures j < |files| && IsSeedFile(files[j]) && IsPage(files[j]) == pages && Decode(files[j]) == Some(Collect(files, pages)[i])
    decreases |files|
  {
    var n := |files| - 1;
    if i < |Collect(files[..n], pages)| {
      j := CollectedFrom(files[..n], pages, i);
    } else {
      j := n;
    }
  }

  lemma KeyNamesTheFile(f: File, g: File)
    requires IsSeedFile(f) && IsSeedFile(g) && IsPage(f) == IsPage(g)
    requires Decode(f).Some? && Decode(g).Some? && Decode(f).value.key == Decode(g).value.key
    ensures f.name == g.name
  {
  }

  lemma {:induction false} CollectedOnce(files: seq<File>, pages: bool)
    requires DistinctNames(files)
    ensures DistinctPlan(Collect(files, pages))
    decreases |files|
  {
    if files != [] {
      var n := |files| - 1;
      CollectedOnce(files[..n], pages);
      var before, all := Collect(files[..n], pages), Collect(files, pages);
      forall i, j | 0 <= i < j < |all| ensures all[i].key != all[j].key {
        if j == |before| {
          var m := CollectedFrom(files[..n], pages, i);
          assert files[m].name != files[n].name;
          if all[i].key == all[j].key {
            KeyNamesTheFile(files[m], files[n]);
          }
        }
      }
    }
  }

  /** A directory has each name once, so no template is planned twice. */
  lemma PlansAreDistinct(files: seq<File>)
    requires DistinctNames(files)
    ensures DistinctPlan(Plan(files))
  {
    CollectedOnce(files, false);
    CollectedOnce(files, true);
    var mails, pages := Collect(files, false), Collect(files, true);
    forall i, j | 0 <= i < |mails| && 0 <= j < |pages| ensures mails[i].key != pages[j].key {
      var m := CollectedFrom(files, false, i);
      var q := CollectedFrom(files, true, j);
    }
  }

  // ---- the store's own checks ---------------------------------------------------------------

  function NameOf(k: ItemKey): string
    requires k.MailTemplate? || k.UiTranslation?
  {
    if k.MailTemplate? then k.template else k.page
  }

  predicate IsTemplateKey(k: ItemKey) { k.MailTemplate? || k.UiTranslation? }

  /** What UpdateMailTemplate and UpdateUITranslations accept for an absent entry. */
  predicate Storable(p: Pending) {
    IsTemplateKey(p.key) && ValidId(NameOf(p.key)) && ValidTranslations(NewEntry(p).translations) && p.bytes <= MAX_TEMPLATE_BYTES
  }

  datatype Stop = Unstorable | StoreFault

  /** A run of the second pass so far. */
  datatype Progress = Progress(store: Store, seeded: seq<ItemKey>, kept: seq<ItemKey>, stopped: Option<Stop>)

  /** One template: the store's own copy wins, an absent one is written if the store takes it. */
  function SeedOne(g: Progress, p: Pending, fault: bool): Progress {
    if g.stopped.Some? then g
    else if fault then g.(stopped := Some(StoreFault))
    else if p.key in g.store then g.(kept := g.kept + [p.key])
    else if !Storable(p) then g.(stopped := Some(Unstorable))
    else g.(store := g.store[p.key := NewEntry(p)], seeded := g.seeded + [p.key])
  }

  /** `faults[i]`: the store fails at the i-th template. */
  function SeedAll(store: Store, plan: seq<Pending>, faults: seq<bool>): Progress
    requires |faults| == |plan|
  {
    if plan == [] then Progress(store, [], [], None)
    else
      var n := |plan| - 1;
      SeedOne(SeedAll(store, plan[..n], faults[..n]), plan[n], faults[n])
  }

  // ---- what seeding promises --------------------------------------------------------------------

  lemma OneOnlyAdds(g: Progress, p: Pending, fault: bool)
    ensures var after := SeedOne(g, p, fault).store;
            && (forall k :: k in g.store ==> k in after && after[k] == g.store[k])
            && (forall k :: k in after && k !in g.store ==> k == p.key && after[k] == NewEntry(p) && Storable(p))
  {
  }

  /** However a pass ends, no entry the store held has changed, and every new one is a file's. */
  lemma {:induction false} SeedingOnlyAdds(store: Store, plan: seq<Pending>, faults: seq<bool>)
    requires |faults| == |plan|
    ensures var after := SeedAll(store, plan, faults).store;
            && (forall k :: k in store ==> k in after && after[k] == store[k])
            && (forall k :: k in after && k !in store ==>
                  exists i :: 0 <= i < |plan| && plan[i].key == k && after[k] == NewEntry(plan[i]) && Storable(plan[i]))
    decreases |plan|
  {
    if plan != [] {
      var n := |plan| - 1;
      SeedingOnlyAdds(store, plan[..n], faults[..n]);
      var before := SeedAll(store, plan[..n], faults[..n]).store;
      var after := SeedAll(store, plan, faults).store;
      OneOnlyAdds(SeedAll(store, plan[..n], faults[..n]), plan[n], faults[n]);
      forall k | k in after && k !in store
        ensures exists i :: 0 <= i < |plan| && plan[i].key == k && after[k] == NewEntry(plan[i]) && Storable(plan[i])
      {
        if k in before {
          var i :| 0 <= i < n && plan[..n][i].key == k && before[k] == NewEntry(plan[..n][i]) && Storable(plan[..n][i]);
          assert plan[i] == plan[..n][i];
        }
      }
    }
  }

  ghost predicate NoFaults(faults: seq<bool>) { forall i :: 0 <= i < |faults| ==> !faults[i] }

  lemma OneMoreTemplate(store: Store, g: Progress, p: Pending)
    requires p.key in g.store ==> p.key in store
    requires forall k :: k in store ==> k in g.store && g.store[k] == store[k]
    ensures var h := SeedOne(g, p, false);
            && (h.stopped.None? <==> g.stopped.None? && (p.key in store || Storable(p)))
            && (h.stopped.None? ==> Holds(store, h, p))
            && (forall k :: k in g.store ==> k in h.store && h.store[k] == g.store[k])
  {
  }

  /** The store has the entry: its own if it had one, the file's otherwise. */
  predicate Holds(store: Store, g: Progress, p: Pending) {
    p.key in g.store && (p.key !in store ==> g.store[p.key] == NewEntry(p))
  }

  ghost predicate AllTakeable(store: Store, plan: seq<Pending>) {
    forall i :: 0 <= i < |plan| ==> plan[i].key in store || Storable(plan[i])
  }

  lemma AllTakeableSnoc(store: Store, plan: seq<Pending>)
    requires plan != []
    ensures AllTakeable(store, plan) <==>
            AllTakeable(store, plan[..|plan| - 1]) && (plan[|plan| - 1].key in store || Storable(plan[|plan| - 1]))
  {
    assert forall i :: 0 <= i < |plan| - 1 ==> plan[..|plan| - 1][i] == plan[i];
  }

  lemma NotPlannedTwice(store: Store, plan: seq<Pending>, faults: seq<bool>)
    requires plan != [] && |faults| == |plan| - 1 && DistinctPlan(plan)
    ensures plan[|plan| - 1].key in SeedAll(store, plan[..|plan| - 1], faults).store ==> plan[|plan| - 1].key in store
  {
    SeedingOnlyAdds(store, plan[..|plan| - 1], faults);
  }

  /**
   With the store up, the second pass completes exactly when every planned entry the store
   does not hold is one it would take; it then holds all of them.
   */
  lemma {:induction false} SecondPassCompletesIff(store: Store, plan: seq<Pending>, faults: seq<bool>)
    requires |faults| == |plan| && NoFaults(faults) && DistinctPlan(plan)
    ensures var g := SeedAll(store, plan, faults);
            && (g.stopped.None? <==> forall i :: 0 <= i < |plan| ==> plan[i].key in store || Storable(plan[i]))
            && (g.stopped.None? ==> forall i :: 0 <= i < |plan| ==> Holds(store, g, plan[i]))
    decreases |plan|
  {
    if plan != [] {
      var n := |plan| - 1;
      SecondPassCompletesIff(store, plan[..n], faults[..n]);
      SeedingOnlyAdds(store, plan[..n], faults[..n]);
      NotPlannedTwice(store, plan, faults[..n]);
      var before, g := SeedAll(store, plan[..n], faults[..n]), SeedAll(store, plan, faults);
      OneMoreTemplate(store, before, plan[n]);
      AllTakeableSnoc(store, plan);
      assert AllTakeable(store, plan[..n]) <==> before.stopped.None?;
      assert g.stopped.None? <==> AllTakeable(store, plan);
      forall i | 0 <= i < |plan| && g.stopped.None? ensures Holds(store, g, plan[i]) {
        assert i < n ==> plan[..n][i] == plan[i] && Holds(store, before, plan[..n][i]);
      }
    }
  }

  /** A completed seeding is idempotent: running it again, even against the corrected files of the same names, writes nothing. */
  lemma {:induction false} SeedingAgainKeepsAll(store: Store, plan: seq<Pending>, faults: seq<bool>)
    requires |faults| == |plan| && NoFaults(faults)
    requires forall i :: 0 <= i < |plan| ==> plan[i].key in store
    ensures var g := SeedAll(store, plan, faults);
            g.store == store && g.seeded == [] && g.stopped.None? && |g.kept| == |plan|
    decreases |plan|
  {
    if plan != [] {
      var n := |plan| - 1;
      SeedingAgainKeepsAll(store, plan[..n], faults[..n]);
    }
  }

  // ---- runs of cold starts and edits ------------------------------------------------------------

  type Log = seq<Entry<ItemKey, Template>>

  /** A second pass in flight: the template it is at, and, once that was read as absent, how much had landed by then. */
  datatype Call = Passing(plan: seq<Pending>, at: nat, absentAt: Option<nat>) | Ended(plan: seq<Pending>, stop: Option<Stop>)

  /** The directory, what has landed on it, and the passes in flight. */
  datatype State = State(store: Store, log: Log, calls: map<nat, Call>)

  /** A pass reads and writes each template in two calls; administrators save templates at any time. */
  datatype Step =
    | ColdStart(call: nat, plan: seq<Pending>)
    | Look(call: nat)
    | Write(call: nat)
    | Fault(call: nat)
    | Edit(key: ItemKey, template: Template)

  function LookStep(s: State, c: nat): State
    requires c in s.calls && s.calls[c].Passing?
  {
    var call := s.calls[c];
    if call.absentAt.Some? then s
    else if call.at >= |call.plan| then s.(calls := s.calls[c := Ended(call.plan, None)])
    else if call.plan[call.at].key in s.store then s.(calls := s.calls[c := call.(at := call.at + 1)])
    else s.(calls := s.calls[c := call.(absentAt := Some(|s.log|))])
  }

  /** What landed, as one entry of the history. */
  function Landing(s: State, k: ItemKey, template: Template, origin: Origin, c: nat): State {
    s.(store := s.store[k := template], log := s.log + [Entry(map[k := template], origin, c)])
  }

  function WriteStep(s: State, c: nat): State
    requires c in s.calls && s.calls[c].Passing?
  {
    var call := s.calls[c];
    if call.absentAt.None? || call.at >= |call.plan| then s
    else
      var p := call.plan[call.at];
      if !Storable(p) then s.(calls := s.calls[c := Ended(call.plan, Some(Unstorable))])
      else
        Landing(s, p.key, Written(At(s.store, p.key), p), Seed(call.absentAt.value), c)
        .(calls := s.calls[c := Passing(call.plan, call.at + 1, None)])
  }

  function Next(s: State, step: Step): State {
    match step
    case ColdStart(c, plan) => if c in s.calls then s else s.(calls := s.calls[c := Passing(plan, 0, None)])
    case Look(c) => if c in s.calls && s.calls[c].Passing? then LookStep(s, c) else s
    case Write(c) => if c in s.calls && s.calls[c].Passing? then WriteStep(s, c) else s
    case Fault(c) => if c in s.calls && s.calls[c].Passing? then s.(calls := s.calls[c := Ended(s.calls[c].plan, Some(StoreFault))]) else s
    case Edit(k, template) => Landing(s, k, template, Admin, 0)
  }

  function Run(s: State, steps: seq<Step>): State {
    if steps == [] then s else Next(Run(s, steps[..|steps| - 1]), steps[|steps| - 1])
  }

  /** Any directory, nothing landed yet, no pass in flight. */
  function Initial(store: Store): State { State(store, [], map[]) }

  /** The directory is what was there first, then what landed, in order. */
  ghost predicate Inv(first: Store, s: State) {
    s.store == first + MergeAll(s.log)
  }

  /** Seeds write only keys they read as absent, and absent they were from the start. */
  ghost predicate Honest(first: Store, s: State) {
    && (forall c :: c in s.calls && s.calls[c].Passing? && s.calls[c].absentAt.Some? ==>
          && s.calls[c].at < |s.calls[c].plan|
          && s.calls[c].plan[s.calls[c].at].key !in first
          && SeedReadIsHonest(s.log, {s.calls[c].plan[s.calls[c].at].key}, Seed(s.calls[c].absentAt.value)))
    && HonestLog(s.log)
    && (forall i, k :: 0 <= i < |s.log| && s.log[i].origin.Seed? && k in s.log[i].patch ==> k !in first)
  }

  lemma LandingKeepsInv(first: Store, s: State, k: ItemKey, template: Template, origin: Origin, c: nat)
    requires Inv(first, s)
    ensures Inv(first, Landing(s, k, template, origin, c))
  {
    MergeAllSnoc(s.log, Entry(map[k := template], origin, c));
  }

  lemma StepKeepsInv(first: Store, s: State, step: Step)
    requires Inv(first, s)
    ensures Inv(first, Next(s, step))
  {
    match step
    case Edit(k, template) => LandingKeepsInv(first, s, k, template, Admin, 0);
    case Write(c) =>
      if c in s.calls && s.calls[c].Passing? && s.calls[c].absentAt.Some? && s.calls[c].at < |s.calls[c].plan| {
        var p := s.calls[c].plan[s.calls[c].at];
        LandingKeepsInv(first, s, p.key, Written(At(s.store, p.key), p), Seed(s.calls[c].absentAt.value), c);
      }
    case _ =>
  }

  lemma LandingKeepsHonest(first: Store, s: State, k: ItemKey, template: Template, origin: Origin, c: nat)
    requires Honest(first, s) && SeedReadIsHonest(s.log, {k}, origin) && (origin.Seed? ==> k !in first)
    ensures Honest(first, Landing(s, k, template, origin, c))
  {
    var e := Entry(map[k := template], origin, c);
    var after := Landing(s, k, template, origin, c);
    assert e.patch.Keys == {k};
    HonestLogGrows(s.log, e);
    forall d | d in after.calls && after.calls[d].Passing? && after.calls[d].absentAt.Some?
      ensures SeedReadIsHonest(after.log, {after.calls[d].plan[after.calls[d].at].key}, Seed(after.calls[d].absentAt.value))
    {
      HonestyLasts(s.log, [e], {s.calls[d].plan[s.calls[d].at].key}, Seed(s.calls[d].absentAt.value));
    }
  }

  lemma LookKeepsHonest(first: Store, s: State, c: nat)
    requires Inv(first, s) && Honest(first, s) && c in s.calls && s.calls[c].Passing?
    ensures Honest(first, LookStep(s, c))
  {
    var call := s.calls[c];
    if call.absentAt.None? && call.at < |call.plan| && call.plan[call.at].key !in s.store {
      ReadingIsHonest(s.log, {call.plan[call.at].key});
    }
  }

  lemma StepKeepsHonest(first: Store, s: State, step: Step)
    requires Inv(first, s) && Honest(first, s)
    ensures Honest(first, Next(s, step))
  {
    match step
    case Edit(k, template) => LandingKeepsHonest(first, s, k, template, Admin, 0);
    case Look(c) => if c in s.calls && s.calls[c].Passing? { LookKeepsHonest(first, s, c); }
    case Write(c) =>
      if c in s.calls && s.calls[c].Passing? && s.calls[c].absentAt.Some? && s.calls[c].at < |s.calls[c].plan| {
        var p := s.calls[c].plan[s.calls[c].at];
        LandingKeepsHonest(first, s, p.key, Written(At(s.store, p.key), p), Seed(s.calls[c].absentAt.value), c);
      }
    case _ =>
  }

  lemma {:induction false} EveryRunIsHonest(first: Store, steps: seq<Step>)
    ensures Inv(first, Run(Initial(first), steps)) && Honest(first, Run(Initial(first), steps))
    decreases |steps|
  {
    if steps != [] {
      var before := Run(Initial(first), steps[..|steps| - 1]);
      EveryRunIsHonest(first, steps[..|steps| - 1]);
      StepKeepsInv(first, before, steps[|steps| - 1]);
      StepKeepsHonest(first, before, steps[|steps| - 1]);
    }
  }

  /**
   Over any run of cold starts, template by template, and edits: a template holds what landed on
   it last, and that is its last edit exactly when the edit landed inside no seed's window.
   */
  lemma TheLastEditStands(first: Store, steps: seq<Step>, k: ItemKey, e: nat)
    requires IsLastEdit(Run(Initial(first), steps).log, k, e)
    ensures var s := Run(Initial(first), steps);
            && Mentions(s.log, k) && k in s.store && s.store[k] == s.log[LastMention(s.log, k)].patch[k]
            && (LastMention(s.log, k) == e <==> forall j :: 0 <= j < |s.log| && Inside(s.log, e, j) ==> k !in s.log[j].patch)
  {
    var s := Run(Initial(first), steps);
    EveryRunIsHonest(first, steps);
    LastEditStandsIff(s.log, k, e);
    LastMentionWins(s.log, k);
  }

  /** And one never edited holds its first seed exactly when that landed inside no other seed's window. */
  lemma TheFirstSeedStands(first: Store, steps: seq<Step>, k: ItemKey, i: nat)
    requires IsFirstMention(Run(Initial(first), steps).log, k, i) && !Edited(Run(Initial(first), steps).log, k)
    ensures var s := Run(Initial(first), steps);
            && s.log[i].origin.Seed? && Mentions(s.log, k)
            && k in s.store && s.store[k] == s.log[LastMention(s.log, k)].patch[k]
            && (LastMention(s.log, k) == i <==> forall j :: 0 <= j < |s.log| && Inside(s.log, i, j) ==> k !in s.log[j].patch)
  {
    var s := Run(Initial(first), steps);
    EveryRunIsHonest(first, steps);
    FirstSeedStandsIff(s.log, k, i);
    LastMentionWins(s.log, k);
  }

  /** In any run of interleaved passes a template that was there and is never edited keeps its content. */
  lemma PassesKeepWhatIsThere(first: Store, steps: seq<Step>, k: ItemKey)
    requires k in first && !Edited(Run(Initial(first), steps).log, k)
    ensures var s := Run(Initial(first), steps); k in s.store && s.store[k] == first[k]
  {
    var s := Run(Initial(first), steps);
    EveryRunIsHonest(first, steps);
    LastMentionWins(s.log, k);
  }

  /** The patch is what one storable file of the plan leaves on some stored template, or on none. */
  ghost predicate FromPlan(patch: map<ItemKey, Template>, plan: seq<Pending>) {
    exists j, stored :: 0 <= j < |plan| && Storable(plan[j]) && patch == map[plan[j].key := Written(stored, plan[j])]
  }

  ghost predicate SeedsAreFiles(s: State) {
    forall i :: 0 <= i < |s.log| && s.log[i].origin.Seed? ==> s.log[i].call in s.calls && FromPlan(s.log[i].patch, s.calls[s.log[i].call].plan)
  }

  lemma StepKeepsSeedsFiles(s: State, step: Step)
    requires SeedsAreFiles(s)
    ensures SeedsAreFiles(Next(s, step))
  {
    var after := Next(s, step);
    assert forall c :: c in s.calls ==> c in after.calls && after.calls[c].plan == s.calls[c].plan;
    forall i | 0 <= i < |after.log| && after.log[i].origin.Seed?
      ensures after.log[i].call in after.calls && FromPlan(after.log[i].patch, after.calls[after.log[i].call].plan)
    {
      if i < |s.log| {
        assert after.log[i] == s.log[i];
      } else {
        var call := s.calls[step.call];
        var p := call.plan[call.at];
        assert after.log[i].patch == map[p.key := Written(At(s.store, p.key), p)];
      }
    }
  }

  /** In any run of interleaved passes every template a pass wrote is a storable file's of its own directory. */
  lemma {:induction false} PassesWriteOnlyTheirFiles(first: Store, steps: seq<Step>)
    ensures SeedsAreFiles(Run(Initial(first), steps))
    decreases |steps|
  {
    if steps != [] {
      PassesWriteOnlyTheirFiles(first, steps[..|steps| - 1]);
      StepKeepsSeedsFiles(Run(Initial(first), steps[..|steps| - 1]), steps[|steps| - 1]);
    }
  }

  /** One template of a pass that nothing interleaves is one template of the whole second pass. */
  lemma OneTemplateAlone(s: State, c: nat)
    requires c in s.calls && s.calls[c].Passing? && s.calls[c].absentAt.None? && s.calls[c].at < |s.calls[c].plan|
    ensures var g := SeedOne(Progress(s.store, [], [], None), s.calls[c].plan[s.calls[c].at], false);
            var after := Next(Next(s, Look(c)), Write(c));
            && after.store == g.store
            && after.calls[c] == if g.stopped.Some? then Ended(s.calls[c].plan, g.stopped) else Passing(s.calls[c].plan, s.calls[c].at + 1, None)
  {
  }

  // ---- what lands inside a window ---------------------------------------------------------------

  lemma RunSnoc(s: State, steps: seq<Step>, step: Step)
    ensures Run(s, steps + [step]) == Next(Run(s, steps), step)
  {
    assert (steps + [step])[..|steps|] == steps;
  }

  /** A file's read and its write are two calls: a template saved between them is overwritten, translations apart. */
  lemma AnEditInsideTheWindowIsUndone(p: Pending, saved: Template)
    requires Storable(p)
    ensures var s := Run(Initial(map[]), [ColdStart(0, [p])] + [Look(0)] + [Edit(p.key, saved)] + [Write(0)]);
            && s.log == [Entry(map[p.key := saved], Admin, 0), Entry(map[p.key := Written(Some(saved), p)], Seed(0), 0)]
            && s.store == map[p.key := Written(Some(saved), p)]
  {
    var start := [ColdStart(0, [p])];
    RunSnoc(Initial(map[]), [], ColdStart(0, [p]));
    assert [] + start == start;
    RunSnoc(Initial(map[]), start, Look(0));
    assert Run(Initial(map[]), start + [Look(0)]) == State(map[], [], map[0 := Passing([p], 0, Some(0))]);
    RunSnoc(Initial(map[]), start + [Look(0)], Edit(p.key, saved));
    assert Run(Initial(map[]), start + [Look(0)] + [Edit(p.key, saved)]) ==
           State(map[p.key := saved], [Entry(map[p.key := saved], Admin, 0)], map[0 := Passing([p], 0, Some(0))]);
    RunSnoc(Initial(map[]), start + [Look(0)] + [Edit(p.key, saved)], Write(0));
  }

  // ---- the gap between the passes ------------------------------------------------------------------

  function PlainMail(name: string): File { File(name, false, MailDocument("", "h", "t", None), 100) }

  function PlainPending(id: string): Pending { Pending(MailTemplate(id), "h", "t", None, 100) }

  lemma PlainMailDecodes(id: string)
    requires id != "" && id[0] != '.' && !EndsWith(id + JSON_SUFFIX, PAGE_SUFFIX)
    ensures IsSeedFile(PlainMail(id + JSON_SUFFIX)) && !IsPage(PlainMail(id + JSON_SUFFIX))
    ensures Decode(PlainMail(id + JSON_SUFFIX)) == Some(PlainPending(id))
  {
    var name := id + JSON_SUFFIX;
    assert name[|name| - |JSON_SUFFIX|..] == JSON_SUFFIX;
    assert CutSuffix(name, JSON_SUFFIX) == id;
  }

  lemma PlanOfTwo(f: File, g: File, p: Pending, q: Pending)
    requires IsSeedFile(f) && !IsPage(f) && Decode(f) == Some(p)
    requires IsSeedFile(g) && !IsPage(g) && Decode(g) == Some(q)
    ensures !AnyBad([f, g]) && Plan([f, g]) == [p, q]
  {
    assert [f, g][..1] == [f] && [f][..0] == [];
    var files := [f, g];
    assert files[1] == g && files[..1] == [f];
    assert Collect([f], false) == [p] && Collect(files, false) == Collect(files[..1], false) + [q];
    assert Collect([f], true) == [] && Collect(files, true) == Collect(files[..1], true) + [];
  }

  lemma StopsAtTheSecond(p: Pending, q: Pending)
    requires Storable(p) && !Storable(q) && p.key != q.key
    ensures SeedAll(map[], [p, q], [false, false]) == Progress(map[p.key := NewEntry(p)], [p.key], [], Some(Unstorable))
  {
    assert [p, q][..1] == [p] && [p][..0] == [] && [false, false][..1] == [false] && [false][..0] == [];
    assert SeedAll(map[], [p], [false]) == Progress(map[p.key := NewEntry(p)], [p.key], [], None);
  }

  /**
   The first pass accepts a file whose name the store refuses. With the store up, the second
   pass then stops half way, and what it wrote before stays.
   */
  lemma AValidatedDirectoryCanBeHalfWritten()
    ensures var files := [PlainMail("a.json"), PlainMail("b c.json")];
            && !AnyBad(files) && Plan(files) == [PlainPending("a"), PlainPending("b c")]
            && SeedAll(map[], Plan(files), [false, false]) ==
               Progress(map[MailTemplate("a") := Template("h", "t", map[])], [MailTemplate("a")], [], Some(Unstorable))
  {
    assert "a" + JSON_SUFFIX == "a.json" && "b c" + JSON_SUFFIX == "b c.json";
    PlainMailDecodes("a");
    PlainMailDecodes("b c");
    PlanOfTwo(PlainMail("a.json"), PlainMail("b c.json"), PlainPending("a"), PlainPending("b c"));
    assert ValidId("a");
    assert "b c"[1] == ' ';
    assert !ValidId("b c");
    StopsAtTheSecond(PlainPending("a"), PlainPending("b c"));
  }

  // ---- the code -----------------------------------------------------------------------------------------

  datatype Report = BadFiles | Stopped(why: Stop) | Seeded(seeded: seq<ItemKey>, kept: seq<ItemKey>)

  /** A report and a store that say how a second pass went. */
  predicate Reports(r: Report, items: Store, g: Progress) {
    items == g.store && r == match g.stopped case Some(why) => Stopped(why) case None => Seeded(g.seeded, g.kept)
  }

  lemma SeedAllSnoc(store: Store, plan: seq<Pending>, faults: seq<bool>, i: nat)
    requires |faults| == |plan| && i < |plan|
    ensures SeedAll(store, plan[..i + 1], faults[..i + 1]) == SeedOne(SeedAll(store, plan[..i], faults[..i]), plan[i], faults[i])
  {
    assert plan[..i + 1][..i] == plan[..i] && faults[..i + 1][..i] == faults[..i];
  }

  class TemplateStore {
    var items: Store

    constructor ()
      ensures items == map[]
    {
      items := map[];
    }

    /** The first pass: everything that can be decided from the files alone, nothing that touches the store. */
    method Validate(files: seq<File>) returns (bad: bool, mails: seq<Pending>, pages: seq<Pending>)
      ensures bad <==> AnyBad(files)
      ensures mails == Collect(files, false) && pages == Collect(files, true)
    {
      bad, mails, pages := false, [], [];
      for i := 0 to |files|
        invariant bad <==> AnyBad(files[..i])
        invariant mails == Collect(files[..i], false) && pages == Collect(files[..i], true)
      {
        var f := files[i];
        assert files[..i + 1][..i] == files[..i];
        BadOneMore(files[..i], f);
        assert files[..i + 1] == files[..i] + [f];
        if !IsSeedFile(f) {
          continue;
        }
        var pending := Decode(f);
        if pending.None? {
          bad := true;
        } else if IsPage(f) {
          pages := pages + [pending.value];
        } else {
          mails := mails + [pending.value];
        }
      }
      assert files[..|files|] == files;
    }

    /** One template of the second pass. */
    method SeedTemplate(p: Pending, fault: bool) returns (kept: bool, stop: Option<Stop>)
      modifies this`items
      ensures var g := SeedOne(Progress(old(items), [], [], None), p, fault);
              items == g.store && stop == g.stopped && (kept <==> g.kept != []) && (!kept && stop.None? <==> g.seeded != [])
    {
      if fault {
        return false, Some(StoreFault);
      }
      if p.key in items {
        return true, None;
      }
      if !Storable(p) {
        return false, Some(Unstorable);
      }
      items := items[p.key := NewEntry(p)];
      return false, None;
    }

    method SecondPass(plan: seq<Pending>, faults: seq<bool>) returns (r: Report)
      requires |faults| == |plan|
      modifies this`items
      ensures r != BadFiles && Reports(r, items, SeedAll(old(items), plan, faults))
    {
      var seeded, names: seq<ItemKey> := [], [];
      for i := 0 to |plan|
        invariant SeedAll(old(items), plan[..i], faults[..i]) == Progress(items, seeded, names, None)
      {
        SeedAllSnoc(old(items), plan, faults, i);
        var kept, stop := SeedTemplate(plan[i], faults[i]);
        if stop.Some? {
          StoppedStays(old(items), plan, faults, i + 1);
          return Stopped(stop.value);
        }
        if kept {
          names := names + [plan[i].key];
        } else {
          seeded := seeded + [plan[i].key];
        }
      }
      assert plan[..|plan|] == plan && faults[..|plan|] == faults;
      return Seeded(seeded, names);
    }

    /** seedTemplates: a bad file anywhere means no write at all; otherwise the plan, until something stops it. */
    method SeedTemplates(files: seq<File>, faults: seq<bool>) returns (r: Report)
      requires |faults| == |Plan(files)|
      modifies this`items
      ensures r == BadFiles <==> AnyBad(files)
      ensures r == BadFiles ==> items == old(items)
      ensures r != BadFiles ==>
                Reports(r, items, SeedAll(old(items), Plan(files), faults))
    {
      var bad, mails, pages := Validate(files);
      if bad {
        return BadFiles;
      }
      r := SecondPass(mails + pages, faults);
    }
  }

  lemma BadOneMore(files: seq<File>, f: File)
    ensures AnyBad(files + [f]) <==> AnyBad(files) || (IsSeedFile(f) && Decode(f).None?)
  {
    var more := files + [f];
    assert more[|files|] == f;
    assert forall i :: 0 <= i < |files| ==> more[i] == files[i];
  }

  lemma {:induction false} StoppedStays(store: Store, plan: seq<Pending>, faults: seq<bool>, i: nat)
    requires |faults| == |plan| && i <= |plan| && SeedAll(store, plan[..i], faults[..i]).stopped.Some?
    ensures SeedAll(store, plan, faults) == SeedAll(store, plan[..i], faults[..i])
    decreases |plan| - i
  {
    if i == |plan| {
      assert plan[..i] == plan && faults[..i] == faults;
    } else {
      assert plan[..i + 1][..i] == plan[..i] && faults[..i + 1][..i] == faults[..i];
      StoppedStays(store, plan, faults, i + 1);
    }
  }
}
