/**
 The user pool import (cmd/migrate/cognito.go): page a directory by opaque tokens, create
 each record that is not there yet, and report a token to resume from when a run stops
 early. The directory, the interruptions and the store's faults are the run's events.
 */
module CognitoImport {
  import opened Bytes
  import opened Keys
  import opened EmailChange
  import EmailStore

  /** A directory record after attribute mapping; `rest` is every attribute but the address. */
  datatype Record = Record(username: string, address: string, rest: int)

  /** ListUsers: every token it ever handed out stands for a position in the pool. */
  datatype Directory = Directory(pool: seq<Record>, offsets: map<string, nat>)

  ghost predicate ValidDirectory(d: Directory) {
    && "" in d.offsets && d.offsets[""] == 0
    && forall token :: token in d.offsets ==> d.offsets[token] <= |d.pool|
  }

  datatype StoreReply = Answered | Refused | ReplyLost

  /** What the outside decides for one record: its random id, if one could be drawn, and the store's reply. */
  datatype Luck = Luck(id: Option<string>, reply: StoreReply)

  datatype Event = Interrupt | ReadFails | Page(next: string, luck: seq<Luck>)

  datatype Ending = Complete | Stopped(resume: string)

  function EndOffset(d: Directory, next: string): nat {
    if next == "" then |d.pool| else if next in d.offsets then d.offsets[next] else 0
  }

  /** `e` is a page the directory may answer `token` with; a page may be short or empty. */
  predicate Answers(d: Directory, token: string, e: Event) {
    && e.Page? && token in d.offsets
    && (e.next == "" || e.next in d.offsets)
    && d.offsets[token] <= EndOffset(d, e.next) <= |d.pool|
    && |e.luck| == EndOffset(d, e.next) - d.offsets[token]
  }

  // ---- which records a run reads -------------------------------------------------------

  datatype Trace = Trace(records: seq<Record>, luck: seq<Luck>, ending: Ending)

  function RunOf(d: Directory, token: string, events: seq<Event>): Trace
    decreases |events|
  {
    if events == [] || !Answers(d, token, events[0]) then Trace([], [], Stopped(token))
    else
      var e := events[0];
      var page := d.pool[d.offsets[token]..EndOffset(d, e.next)];
      if e.next == "" then Trace(page, e.luck, Complete)
      else
        var rest := RunOf(d, e.next, events[1..]);
        Trace(page + rest.records, e.luck + rest.luck, rest.ending)
  }

  function StopOffset(d: Directory, ending: Ending): nat {
    match ending case Complete => |d.pool| case Stopped(resume) => if resume in d.offsets then d.offsets[resume] else 0
  }

  /** A run reads the contiguous stretch from its token to the token it reports. */
  lemma {:induction false} RunReadsAStretch(d: Directory, token: string, events: seq<Event>)
    requires ValidDirectory(d) && token in d.offsets
    ensures var run := RunOf(d, token, events);
            && (run.ending.Stopped? ==> run.ending.resume in d.offsets)
            && d.offsets[token] <= StopOffset(d, run.ending) <= |d.pool|
            && run.records == d.pool[d.offsets[token]..StopOffset(d, run.ending)]
            && |run.luck| == |run.records|
    decreases |events|
  {
    if events != [] && Answers(d, token, events[0]) && events[0].next != "" {
      var next := events[0].next;
      RunReadsAStretch(d, next, events[1..]);
      var rest := RunOf(d, next, events[1..]);
      var from, mid, to := d.offsets[token], d.offsets[next], StopOffset(d, rest.ending);
      assert d.pool[from..mid] + d.pool[mid..to] == d.pool[from..to];
    }
  }

  /** The runs an operator makes: each resumes where the one before it said, until one completes. */
  function ChainOf(d: Directory, token: string, runs: seq<seq<Event>>): Trace
    decreases |runs|
  {
    if runs == [] then Trace([], [], Stopped(token))
    else
      var first := RunOf(d, token, runs[0]);
      match first.ending
      case Complete => first
      case Stopped(resume) =>
        var rest := ChainOf(d, resume, runs[1..]);
        Trace(first.records + rest.records, first.luck + rest.luck, rest.ending)
  }

  lemma {:induction false} ChainReadsAStretch(d: Directory, token: string, runs: seq<seq<Event>>)
    requires ValidDirectory(d) && token in d.offsets
    ensures var chain := ChainOf(d, token, runs);
            && (chain.ending.Stopped? ==> chain.ending.resume in d.offsets)
            && d.offsets[token] <= StopOffset(d, chain.ending) <= |d.pool|
            && chain.records == d.pool[d.offsets[token]..StopOffset(d, chain.ending)]
            && |chain.luck| == |chain.records|
    decreases |runs|
  {
    if runs != [] {
      var first := RunOf(d, token, runs[0]);
      RunReadsAStretch(d, token, runs[0]);
      if first.ending.Stopped? {
        var resume := first.ending.resume;
        ChainReadsAStretch(d, resume, runs[1..]);
        var rest := ChainOf(d, resume, runs[1..]);
        var from, mid, to := d.offsets[token], d.offsets[resume], StopOffset(d, rest.ending);
        assert d.pool[from..mid] + d.pool[mid..to] == d.pool[from..to];
      }
    }
  }

  /** Any number of interruptions, any page sizes: a chain that completes has read every record exactly once. */
  lemma EveryRecordIsReadOnce(d: Directory, runs: seq<seq<Event>>)
    requires ValidDirectory(d) && ChainOf(d, "", runs).ending == Complete
    ensures ChainOf(d, "", runs).records == d.pool
  {
    ChainReadsAStretch(d, "", runs);
    assert d.pool[0..|d.pool|] == d.pool;
  }

  // ---- what importing a record does ------------------------------------------------------

  datatype Counts = Counts(read: nat, written: nat, existing: nat, noEmail: seq<string>, failed: seq<string>)

  datatype Fate = Written | Existing | NoEmail | Failed

  const NOTHING := Counts(0, 0, 0, [], [])

  /** The row CreateMigratedUser files for a record: no password hash, the rest as mapped. */
  function RowOf(rec: Record): Item { ProfileItem(Normalize(rec.address), "", "", "", rec.rest) }

  /** UserFromSource, then CreateMigratedUser: a row the store already has is never rewritten. */
  function ImportOne(tb: Table, multiTenant: bool, t: string, rec: Record, luck: Luck): (r: (Fate, Table)) {
    if Normalize(rec.address) == "" then (NoEmail, tb)
    else if luck.id.None? || luck.reply == Refused then (Failed, tb)
    else if !ValidUser(multiTenant, t, luck.id.value) || !ValidEmail(Normalize(rec.address)) then (Failed, tb)
    else
      var (outcome, after) := CreateTx(tb, t, luck.id.value, RowOf(rec));
      if luck.reply == ReplyLost then (Failed, after)
      else if outcome == UserExists then (Existing, after)
      else (Written, after)
  }

  function Tallied(c: Counts, rec: Record, fate: Fate): Counts {
    match fate
    case Written => c.(written := c.written + 1)
    case Existing => c.(existing := c.existing + 1)
    case NoEmail => c.(noEmail := c.noEmail + [rec.username])
    case Failed => c.(failed := c.failed + [rec.username])
  }

  /** What one record does to the table. */
  type Importer = (Table, Record, Luck) -> (Fate, Table)

  function Fold(one: Importer, tb: Table, recs: seq<Record>, luck: seq<Luck>): (r: (Counts, Table))
    requires |recs| == |luck|
  {
    if recs == [] then (NOTHING, tb)
    else
      var n := |recs| - 1;
      var (counts, before) := Fold(one, tb, recs[..n], luck[..n]);
      var (fate, after) := one(before, recs[n], luck[n]);
      (Tallied(counts.(read := counts.read + 1), recs[n], fate), after)
  }

  function ImporterInto(multiTenant: bool, t: string): Importer {
    (tb, rec, luck) => ImportOne(tb, multiTenant, t, rec, luck)
  }

  /** One record after the other. */
  function ImportMany(tb: Table, multiTenant: bool, t: string, recs: seq<Record>, luck: seq<Luck>): (r: (Counts, Table))
    requires |recs| == |luck|
  {
    Fold(ImporterInto(multiTenant, t), tb, recs, luck)
  }

  lemma FoldSnoc(one: Importer, tb: Table, recs: seq<Record>, luck: seq<Luck>, rec: Record, l: Luck)
    requires |recs| == |luck|
    ensures var (counts, before) := Fold(one, tb, recs, luck);
            var (fate, after) := one(before, rec, l);
            Fold(one, tb, recs + [rec], luck + [l]) == (Tallied(counts.(read := counts.read + 1), rec, fate), after)
  {
    assert (recs + [rec])[..|recs|] == recs && (luck + [l])[..|recs|] == luck;
  }

  lemma ImportManySnoc(tb: Table, multiTenant: bool, t: string, recs: seq<Record>, luck: seq<Luck>, rec: Record, l: Luck)
    requires |recs| == |luck|
    ensures var (counts, before) := ImportMany(tb, multiTenant, t, recs, luck);
            var (fate, after) := ImportOne(before, multiTenant, t, rec, l);
            ImportMany(tb, multiTenant, t, recs + [rec], luck + [l]) == (Tallied(counts.(read := counts.read + 1), rec, fate), after)
  {
    FoldSnoc(ImporterInto(multiTenant, t), tb, recs, luck, rec, l);
  }

  predicate Conserved(c: Counts) { c.read == c.written + c.existing + |c.noEmail| + |c.failed| }

  lemma {:induction false} FoldConserves(one: Importer, tb: Table, recs: seq<Record>, luck: seq<Luck>)
    requires |recs| == |luck|
    ensures Fold(one, tb, recs, luck).0.read == |recs| && Conserved(Fold(one, tb, recs, luck).0)
    decreases |recs|
  {
    if recs != [] {
      FoldConserves(one, tb, recs[..|recs| - 1], luck[..|recs| - 1]);
    }
  }

  /** The summary accounts for every record read, once. */
  lemma TallyIsConserved(tb: Table, multiTenant: bool, t: string, recs: seq<Record>, luck: seq<Luck>)
    requires |recs| == |luck|
    ensures var c := ImportMany(tb, multiTenant, t, recs, luck).0;
            c.read == |recs| == c.written + c.existing + |c.noEmail| + |c.failed|
  {
    FoldConserves(ImporterInto(multiTenant, t), tb, recs, luck);
  }

  /** Random ids: no two alike, and none in the table yet. */
  ghost predicate FreshIds(tb: Table, t: string, luck: seq<Luck>) {
    && (forall i :: 0 <= i < |luck| && luck[i].id.Some? ==>
          Profile(t, luck[i].id.value) !in tb && Member(t, luck[i].id.value) !in tb)
    && (forall i, j :: 0 <= i < j < |luck| && luck[i].id.Some? ==> luck[i].id != luck[j].id)
  }

  ghost predicate Extends(tb: Table, after: Table) {
    forall k :: k in tb ==> k in after && after[k] == tb[k]
  }

  /** What an import added for the ids it was given, and nothing else. */
  ghost predicate AddsOnly(tb: Table, after: Table, t: string, luck: seq<Luck>) {
    forall k :: k in after && k !in tb ==>
      || k.Email?
      || ((k.Profile? || k.Member?) && exists i :: 0 <= i < |luck| && luck[i].id == Some(k.user))
  }

  /** No row that was there before changes, and what is new belongs to the imported records. */
  lemma {:induction false} ImportExtends(tb: Table, multiTenant: bool, t: string, recs: seq<Record>, luck: seq<Luck>)
    requires |recs| == |luck| && FreshIds(tb, t, luck)
    ensures Extends(tb, ImportMany(tb, multiTenant, t, recs, luck).1)
    ensures AddsOnly(tb, ImportMany(tb, multiTenant, t, recs, luck).1, t, luck)
    decreases |recs|
  {
    if recs != [] {
      var n := |recs| - 1;
      ImportExtends(tb, multiTenant, t, recs[..n], luck[..n]);
      var before := ImportMany(tb, multiTenant, t, recs[..n], luck[..n]).1;
      NextIdIsFresh(tb, before, t, luck);
      OneExtends(before, multiTenant, t, recs[n], luck[n]);
      var after := ImportOne(before, multiTenant, t, recs[n], luck[n]).1;
      forall k | k in after && k !in tb
        ensures k.Email? || ((k.Profile? || k.Member?) && exists i :: 0 <= i < |luck| && luck[i].id == Some(k.user))
      {
        if k in before && !k.Email? {
          var i :| 0 <= i < n && luck[..n][i].id == Some(k.user);
          assert luck[i] == luck[..n][i];
        }
      }
    }
  }

  lemma NextIdIsFresh(tb: Table, before: Table, t: string, luck: seq<Luck>)
    requires luck != [] && FreshIds(tb, t, luck) && AddsOnly(tb, before, t, luck[..|luck| - 1])
    ensures luck[|luck| - 1].id.Some? ==>
              Profile(t, luck[|luck| - 1].id.value) !in before && Member(t, luck[|luck| - 1].id.value) !in before
  {
  }

  lemma OneExtends(tb: Table, multiTenant: bool, t: string, rec: Record, luck: Luck)
    requires luck.id.Some? ==> Profile(t, luck.id.value) !in tb && Member(t, luck.id.value) !in tb
    ensures var (fate, after) := ImportOne(tb, multiTenant, t, rec, luck);
            && Extends(tb, after)
            && (forall k :: k in after && k !in tb ==>
                  k.Email? || ((k.Profile? || k.Member?) && luck.id == Some(k.user)))
            && (fate == Written || fate == Existing ==> Email(t, Normalize(rec.address)) in after)
            && (fate == Written ==>
                  && Email(t, Normalize(rec.address)) !in tb
                  && after[Profile(t, luck.id.value)] == RowOf(rec)
                  && after[Email(t, Normalize(rec.address))] == EmailItem(luck.id.value, t))
            && (fate == Existing ==> after == tb)
  {
  }

  /** Every record read ends up under its address in the store, or named in the summary. */
  lemma {:induction false} EveryRecordIsAccountedFor(tb: Table, multiTenant: bool, t: string, recs: seq<Record>, luck: seq<Luck>, i: nat)
    requires |recs| == |luck| && FreshIds(tb, t, luck) && i < |recs|
    ensures var (c, after) := ImportMany(tb, multiTenant, t, recs, luck);
            Accounted(after, c, t, recs[i])
    decreases |recs|
  {
    var n := |recs| - 1;
    var (c, before) := ImportMany(tb, multiTenant, t, recs[..n], luck[..n]);
    ImportExtends(tb, multiTenant, t, recs[..n], luck[..n]);
    NextIdIsFresh(tb, before, t, luck);
    if i < n {
      EveryRecordIsAccountedFor(tb, multiTenant, t, recs[..n], luck[..n], i);
      assert recs[..n][i] == recs[i];
    }
    OneAccounts(before, multiTenant, t, recs[n], luck[n], c, recs[i]);
  }

  /** A record in the store, or named for want of an address, or named as failed. */
  predicate Accounted(after: Table, c: Counts, t: string, rec: Record) {
    || Email(t, Normalize(rec.address)) in after
    || (rec.username in c.noEmail && Normalize(rec.address) == "")
    || rec.username in c.failed
  }

  /** One more record is accounted for, and so stays every other. */
  lemma OneAccounts(before: Table, multiTenant: bool, t: string, rec: Record, luck: Luck, c: Counts, other: Record)
    requires luck.id.Some? ==> Profile(t, luck.id.value) !in before && Member(t, luck.id.value) !in before
    requires other == rec || Accounted(before, c, t, other)
    ensures var (fate, after) := ImportOne(before, multiTenant, t, rec, luck);
            Accounted(after, Tallied(c.(read := c.read + 1), rec, fate), t, other)
  {
    OneExtends(before, multiTenant, t, rec, luck);
  }

  /** The address items and profiles stay in step through an import. */
  lemma {:induction false} ImportKeepsBijection(tb: Table, multiTenant: bool, t: string, recs: seq<Record>, luck: seq<Luck>)
    requires |recs| == |luck| && Bijection(tb)
    ensures Bijection(ImportMany(tb, multiTenant, t, recs, luck).1)
    decreases |recs|
  {
    if recs != [] {
      var n := |recs| - 1;
      ImportKeepsBijection(tb, multiTenant, t, recs[..n], luck[..n]);
      var before := ImportMany(tb, multiTenant, t, recs[..n], luck[..n]).1;
      if luck[n].id.Some? {
        CreateKeepsBijection(before, t, luck[n].id.value, RowOf(recs[n]));
      }
    }
  }

  /** Importing again what is already there, from the beginning and with any new ids, changes nothing. */
  lemma {:induction false} RerunChangesNothing(tb: Table, multiTenant: bool, t: string, recs: seq<Record>, luck: seq<Luck>)
    requires |recs| == |luck|
    requires forall i :: 0 <= i < |recs| ==> Email(t, Normalize(recs[i].address)) in tb
    ensures ImportMany(tb, multiTenant, t, recs, luck).1 == tb
    ensures ImportMany(tb, multiTenant, t, recs, luck).0.written == 0
    decreases |recs|
  {
    if recs != [] {
      var n := |recs| - 1;
      RerunChangesNothing(tb, multiTenant, t, recs[..n], luck[..n]);
      assert Email(t, Normalize(recs[n].address)) in tb;
    }
  }

  /** Called already present, and then nowhere in the store: what the count must not say of a record. */
  predicate Loses(tb: Table, multiTenant: bool, t: string, rec: Record, luck: Luck) {
    var (fate, after) := ImportOne(tb, multiTenant, t, rec, luck);
    fate == Existing && Email(t, Normalize(rec.address)) !in after
  }

  /** Exactly a record that would have been created, had its random id not been another user's. */
  lemma LosesARecordIff(tb: Table, multiTenant: bool, t: string, rec: Record, luck: Luck)
    ensures Loses(tb, multiTenant, t, rec, luck) <==>
            && luck.id.Some? && luck.reply == Answered
            && ValidUser(multiTenant, t, luck.id.value) && ValidEmail(Normalize(rec.address))
            && Profile(t, luck.id.value) in tb
            && Email(t, Normalize(rec.address)) !in tb
  {
    assert !ValidEmail("");
  }

  /** Without fresh ids the count lies: a record whose id is taken is called already present and is nowhere. */
  lemma TakenIdLosesARecord()
    ensures exists tb, rec, luck :: Bijection(tb) && Loses(tb, false, "", rec, luck)
  {
    var tb: Table := map[Profile("", "u") := ProfileItem("a", "", "", "", 0), Email("", "a") := EmailItem("u", "")];
    var rec := Record("r", "b", 0);
    assert Trim("b") == "b";
    assert Normalize("b") == "b";
    assert ValidId("u");
    assert Loses(tb, false, "", rec, Luck(Some("u"), Answered));
  }

  function Plus(a: Counts, b: Counts): Counts {
    Counts(a.read + b.read, a.written + b.written, a.existing + b.existing, a.noEmail + b.noEmail, a.failed + b.failed)
  }

  lemma TalliedPlus(a: Counts, b: Counts, rec: Record, fate: Fate)
    ensures Plus(a, Tallied(b.(read := b.read + 1), rec, fate)) == Tallied(Plus(a, b).(read := a.read + b.read + 1), rec, fate)
  {
    assert a.noEmail + (b.noEmail + [rec.username]) == a.noEmail + b.noEmail + [rec.username];
    assert a.failed + (b.failed + [rec.username]) == a.failed + b.failed + [rec.username];
  }

  /** `c` and `after` are what a fold over the records counts and leaves. */
  ghost predicate Folds(one: Importer, tb: Table, recs: seq<Record>, luck: seq<Luck>, c: Counts, after: Table) {
    |recs| == |luck| && Fold(one, tb, recs, luck) == (c, after)
  }

  lemma OneMore(one: Importer, tb: Table, recs: seq<Record>, luck: seq<Luck>, c: Counts, before: Table, rec: Record, l: Luck, fate: Fate, after: Table)
    requires Folds(one, tb, recs, luck, c, before) && one(before, rec, l) == (fate, after)
    ensures Folds(one, tb, recs + [rec], luck + [l], Tallied(c.(read := c.read + 1), rec, fate), after)
  {
    FoldSnoc(one, tb, recs, luck, rec, l);
  }

  lemma LastOff<T>(a: seq<T>, b: seq<T>)
    requires b != []
    ensures b[..|b| - 1] + [b[|b| - 1]] == b
    ensures a + b[..|b| - 1] + [b[|b| - 1]] == a + b
  {
  }

  lemma {:induction false} FoldsCompose(one: Importer, tb: Table, recs: seq<Record>, luck: seq<Luck>, c: Counts, middle: Table,
                                        recs': seq<Record>, luck': seq<Luck>) returns (c': Counts, after: Table)
    requires Folds(one, tb, recs, luck, c, middle) && |recs'| == |luck'|
    ensures Folds(one, middle, recs', luck', c', after)
    ensures Folds(one, tb, recs + recs', luck + luck', Plus(c, c'), after)
    decreases |recs'|
  {
    if recs' == [] {
      assert recs + recs' == recs && luck + luck' == luck;
      assert c.noEmail + [] == c.noEmail && c.failed + [] == c.failed;
      c', after := NOTHING, middle;
    } else {
      var n := |recs'| - 1;
      var b, before := FoldsCompose(one, tb, recs, luck, c, middle, recs'[..n], luck'[..n]);
      var r := one(before, recs'[n], luck'[n]);
      OneMore(one, middle, recs'[..n], luck'[..n], b, before, recs'[n], luck'[n], r.0, r.1);
      OneMore(one, tb, recs + recs'[..n], luck + luck'[..n], Plus(c, b), before, recs'[n], luck'[n], r.0, r.1);
      c', after := Tallied(b.(read := b.read + 1), recs'[n], r.0), r.1;
      TalliedPlus(c, b, recs'[n], r.0);
      LastOff(recs, recs');
      LastOff(luck, luck');
    }
  }

  /** Two runs in a row import what one run over both stretches would; their summaries add up. */
  lemma RunsCompose(tb: Table, multiTenant: bool, t: string, recs: seq<Record>, luck: seq<Luck>, recs': seq<Record>, luck': seq<Luck>)
    requires |recs| == |luck| && |recs'| == |luck'|
    ensures var (c, middle) := ImportMany(tb, multiTenant, t, recs, luck);
            var (c', after) := ImportMany(middle, multiTenant, t, recs', luck');
            ImportMany(tb, multiTenant, t, recs + recs', luck + luck') == (Plus(c, c'), after)
  {
    var (c, middle) := ImportMany(tb, multiTenant, t, recs, luck);
    var c', after := FoldsCompose(ImporterInto(multiTenant, t), tb, recs, luck, c, middle, recs', luck');
  }

  /** The summary each run of a chain prints, over the table the runs before it left. */
  function Summaries(tb: Table, multiTenant: bool, t: string, d: Directory, token: string, runs: seq<seq<Event>>): (r: (seq<Counts>, Table))
    requires ValidDirectory(d) && token in d.offsets
    decreases |runs|
  {
    if runs == [] then ([], tb)
    else
      RunReadsAStretch(d, token, runs[0]);
      var first := RunOf(d, token, runs[0]);
      var (c, middle) := ImportMany(tb, multiTenant, t, first.records, first.luck);
      match first.ending
      case Complete => ([c], middle)
      case Stopped(resume) =>
        var (rest, after) := Summaries(middle, multiTenant, t, d, resume, runs[1..]);
        ([c] + rest, after)
  }

  function Total(summaries: seq<Counts>): Counts {
    if summaries == [] then NOTHING else Plus(summaries[0], Total(summaries[1..]))
  }

  /** Interruptions lose and repeat nothing: the runs' summaries add up to one uninterrupted import of what they read. */
  lemma {:induction false} SummariesAddUp(tb: Table, multiTenant: bool, t: string, d: Directory, token: string, runs: seq<seq<Event>>)
    requires ValidDirectory(d) && token in d.offsets
    ensures var chain := ChainOf(d, token, runs);
            var (summaries, after) := Summaries(tb, multiTenant, t, d, token, runs);
            && |chain.luck| == |chain.records|
            && ImportMany(tb, multiTenant, t, chain.records, chain.luck) == (Total(summaries), after)
    decreases |runs|
  {
    ChainReadsAStretch(d, token, runs);
    if runs != [] {
      RunReadsAStretch(d, token, runs[0]);
      var first := RunOf(d, token, runs[0]);
      var (c, middle) := ImportMany(tb, multiTenant, t, first.records, first.luck);
      if first.ending.Stopped? {
        var resume := first.ending.resume;
        SummariesAddUp(middle, multiTenant, t, d, resume, runs[1..]);
        var rest := ChainOf(d, resume, runs[1..]);
        RunsCompose(tb, multiTenant, t, first.records, first.luck, rest.records, rest.luck);
        var summaries := Summaries(middle, multiTenant, t, d, resume, runs[1..]).0;
        TotalOf(c, summaries);
      } else {
        TotalOf(c, []);
        PlusNothing(c);
      }
    }
  }

  lemma TotalOf(c: Counts, summaries: seq<Counts>)
    ensures Total([c] + summaries) == Plus(c, Total(summaries))
  {
    assert ([c] + summaries)[1..] == summaries;
  }

  lemma PlusNothing(c: Counts)
    ensures Plus(c, NOTHING) == c
  {
    assert c.noEmail + [] == c.noEmail && c.failed + [] == c.failed;
  }

  /** A chain that completes leaves every record of the pool in the store or named in some run's summary. */
  lemma ChainAccountsForThePool(tb: Table, multiTenant: bool, t: string, d: Directory, runs: seq<seq<Event>>, i: nat)
    requires ValidDirectory(d) && ChainOf(d, "", runs).ending == Complete && i < |d.pool|
    requires FreshIds(tb, t, ChainOf(d, "", runs).luck)
    ensures var (summaries, after) := Summaries(tb, multiTenant, t, d, "", runs);
            var c := Total(summaries);
            && Extends(tb, after)
            && c.read == |d.pool| == c.written + c.existing + |c.noEmail| + |c.failed|
            && Accounted(after, c, t, d.pool[i])
  {
    var chain := ChainOf(d, "", runs);
    SummariesAddUp(tb, multiTenant, t, d, "", runs);
    EveryRecordIsReadOnce(d, runs);
    ImportExtends(tb, multiTenant, t, chain.records, chain.luck);
    TallyIsConserved(tb, multiTenant, t, chain.records, chain.luck);
    EveryRecordIsAccountedFor(tb, multiTenant, t, chain.records, chain.luck, i);
  }

  // ---- the command --------------------------------------------------------------------------

  class Tally {
    var read: nat
    var written: nat
    var existing: nat
    var noEmail: seq<string>
    var failed: seq<string>

    constructor ()
      ensures Value() == NOTHING
    {
      read, written, existing := 0, 0, 0;
      noEmail, failed := [], [];
    }

    ghost function Value(): Counts
      reads this
    {
      Counts(read, written, existing, noEmail, failed)
    }
  }

  /** CreateMigratedUser behind a network that may refuse the call or lose its answer. */
  method CreateMigratedUser(store: EmailStore.Store, t: string, rec: Record, luck: Luck) returns (r: Outcome)
    requires luck.id.Some?
    modifies store`items
    ensures ImportOne(old(store.items), store.multiTenant, t, rec, luck).1 == store.items || Normalize(rec.address) == ""
    ensures Normalize(rec.address) != "" ==>
              var fate := ImportOne(old(store.items), store.multiTenant, t, rec, luck).0;
              (r == Success <==> fate == Written) && (r == UserExists <==> fate == Existing)
  {
    if luck.reply == Refused {
      return StoreFault;
    }
    r := store.CreateUser(t, luck.id.value, rec.address, rec.rest);
    if r != InvalidInput && luck.reply == ReplyLost {
      r := StoreFault;
    }
  }

  /** importUser: exactly one counter or list grows. */
  method ImportUser(store: EmailStore.Store, t: string, rec: Record, luck: Luck, tally: Tally)
    modifies store`items, tally`written, tally`existing, tally`noEmail, tally`failed
    ensures var (fate, after) := ImportOne(old(store.items), store.multiTenant, t, rec, luck);
            && store.items == after
            && tally.Value() == Tallied(old(tally.Value()), rec, fate)
  {
    if Normalize(rec.address) == "" {
      tally.noEmail := tally.noEmail + [rec.username];
      return;
    }
    if luck.id.None? {
      tally.failed := tally.failed + [rec.username];
      return;
    }
    var outcome := CreateMigratedUser(store, t, rec, luck);
    if outcome == UserExists {
      tally.existing := tally.existing + 1;
    } else if outcome != Success {
      tally.failed := tally.failed + [rec.username];
    } else {
      tally.written := tally.written + 1;
    }
  }

  lemma Snoc<T>(a: seq<T>, b: seq<T>, j: nat)
    requires j < |b|
    ensures a + b[..j] + [b[j]] == a + b[..j + 1]
  {
  }

  method ImportNext(store: EmailStore.Store, t: string, rec: Record, luck: Luck, tally: Tally,
                    ghost start: Table, ghost records: seq<Record>, ghost drawn: seq<Luck>)
    requires |drawn| == |records|
    requires (tally.Value(), store.items) == ImportMany(start, store.multiTenant, t, records, drawn)
    modifies store`items, tally
    ensures (tally.Value(), store.items) == ImportMany(start, store.multiTenant, t, records + [rec], drawn + [luck])
  {
    ImportManySnoc(start, store.multiTenant, t, records, drawn, rec, luck);
    tally.read := tally.read + 1;
    ImportUser(store, t, rec, luck, tally);
  }

  /** The inner loop of importAll: one page, fully processed before the next is asked for. */
  method ImportPage(store: EmailStore.Store, t: string, page: seq<Record>, luck: seq<Luck>, tally: Tally,
                    ghost start: Table, ghost records: seq<Record>, ghost drawn: seq<Luck>)
    requires |luck| == |page| && |drawn| == |records|
    requires (tally.Value(), store.items) == ImportMany(start, store.multiTenant, t, records, drawn)
    modifies store`items, tally
    ensures (tally.Value(), store.items) == ImportMany(start, store.multiTenant, t, records + page, drawn + luck)
  {
    assert records + page[..0] == records && drawn + luck[..0] == drawn;
    for j := 0 to |page|
      invariant (tally.Value(), store.items) ==
                ImportMany(start, store.multiTenant, t, records + page[..j], drawn + luck[..j])
    {
      Snoc(records, page, j);
      Snoc(drawn, luck, j);
      ImportNext(store, t, page[j], luck[j], tally, start, records + page[..j], drawn + luck[..j]);
    }
    assert page[..|page|] == page && luck[..|page|] == luck;
  }

  ghost predicate Continues(run: Trace, done: Trace, rest: Trace) {
    run == Trace(done.records + rest.records, done.luck + rest.luck, rest.ending)
  }

  /** A run with some pages behind it either stops where it stands or takes in one page more. */
  lemma OneMorePage(run: Trace, done: Trace, d: Directory, token: string, events: seq<Event>, i: nat)
    requires i <= |events| && Continues(run, done, RunOf(d, token, events[i..]))
    ensures i == |events| || !Answers(d, token, events[i]) ==>
              run.records == done.records && run.luck == done.luck && run.ending == Stopped(token)
    ensures i < |events| && Answers(d, token, events[i]) ==>
              var next := events[i].next;
              var more := Trace(done.records + d.pool[d.offsets[token]..EndOffset(d, next)], done.luck + events[i].luck, Complete);
              if next == "" then run == more else Continues(run, more, RunOf(d, next, events[i + 1..]))
  {
    if i < |events| {
      assert events[i..][1..] == events[i + 1..];
    }
  }

  /** importAll: the run the events describe, its summary, and the token it reports. */
  method ImportAll(d: Directory, store: EmailStore.Store, t: string, startToken: string, events: seq<Event>)
    returns (ending: Ending, tally: Tally)
    requires ValidDirectory(d) && startToken in d.offsets
    modifies store`items
    ensures fresh(tally)
    ensures var run := RunOf(d, startToken, events);
            && |run.luck| == |run.records|
            && ending == run.ending
            && (tally.Value(), store.items) == ImportMany(old(store.items), store.multiTenant, t, run.records, run.luck)
  {
    tally := new Tally();
    var token := startToken;
    var resumeToken := startToken;
    RunReadsAStretch(d, startToken, events);
    ghost var run := RunOf(d, startToken, events);
    ghost var done: Trace := Trace([], [], Complete);
    var i := 0;
    while true
      invariant i <= |events| && token in d.offsets && resumeToken == token
      invariant Continues(run, done, RunOf(d, token, events[i..]))
      invariant |done.luck| == |done.records|
      invariant (tally.Value(), store.items) == ImportMany(old(store.items), store.multiTenant, t, done.records, done.luck)
      invariant fresh(tally)
      decreases |events| - i
    {
      OneMorePage(run, done, d, token, events, i);
      if i == |events| || events[i].Interrupt? {
        return Stopped(resumeToken), tally;
      }
      if !Answers(d, token, events[i]) {
        return Stopped(resumeToken), tally;
      }
      var page := d.pool[d.offsets[token]..EndOffset(d, events[i].next)];
      var luck := events[i].luck;
      ImportPage(store, t, page, luck, tally, old(store.items), done.records, done.luck);
      done := Trace(done.records + page, done.luck + luck, Complete);
      resumeToken := events[i].next;
      if events[i].next == "" {
        break;
      }
      token := events[i].next;
      i := i + 1;
    }
    ending := Complete;
  }
}
