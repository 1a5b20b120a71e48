/**
 API keys (internal/store/dynamodb/api_keys.go). A key is two items, the record under
 its prefix and a pointer under its id. Every mutation resolves the pointer in one call
 and writes the record in another, so records may be deleted and prefixes reused in
 between. Each DynamoDB call is one atomic step and any number of methods interleave.
 */
module ApiKeys {
  import opened Bytes
  import opened Keys
  import opened Stamps

  datatype Item =
    | Record(keyId: string, active: bool, lastUsed: string, rest: int)   // lastUsed "" is an absent attribute
    | Pointer(prefix: string)
    | OtherItem(rest: int)

  type Table = map<ItemKey, Item>

  const THROTTLE := 60 * NANOS_PER_SECOND

  /** Instants whose stamp, and whose staleness bound, have a four-digit year. */
  type TouchTime = t: Instant | FourDigitYear(t) && FourDigitYear(Plus(t, -THROTTLE)) witness TouchTimeWitness()

  function TouchTimeWitness(): (t: Instant)
    ensures FourDigitYear(t) && FourDigitYear(Plus(t, -THROTTLE))
  {
    Instant(86_400, 0)
  }

  // ---- the atomic calls -------------------------------------------------------

  datatype Outcome = Success | KeyExists | InvalidInput | StoreFault

  predicate ValidRecord(id: string, prefix: string, service: string) {
    ValidId(id) && ValidOpaque(prefix, MAX_API_KEY_PREFIX_LEN) && (service == "" || ValidOpaque(service, MAX_SERVICE_ID_LEN))
  }

  function SaveTx(tb: Table, id: string, prefix: string, record: Item): (Outcome, Table)
  {
    if ApiKey(prefix) in tb || KeyId(id) in tb then (KeyExists, tb)
    else (Success, tb[ApiKey(prefix) := record][KeyId(id) := Pointer(prefix)])
  }

  /** apiKeyPrefixForID. */
  function PrefixForId(tb: Table, id: string): Option<string> {
    if ValidId(id) && KeyId(id) in tb && tb[KeyId(id)].Pointer? && tb[KeyId(id)].prefix != ""
    then Some(tb[KeyId(id)].prefix) else None
  }

  predicate IsRecord(tb: Table, p: string) { ApiKey(p) in tb && tb[ApiKey(p)].Record? }

  function RevokeUpdate(tb: Table, p: string): Table {
    if !IsRecord(tb, p) then tb else tb[ApiKey(p) := tb[ApiKey(p)].(active := false)]
  }

  /** The throttle is a condition on the stored stamp, compared as text. */
  predicate TouchHolds(tb: Table, p: string, when: TouchTime) {
    IsRecord(tb, p) && (tb[ApiKey(p)].lastUsed == "" || Less(tb[ApiKey(p)].lastUsed, FormatTime(Plus(when, -THROTTLE))))
  }

  function TouchUpdate(tb: Table, p: string, when: TouchTime): Table {
    if !TouchHolds(tb, p, when) then tb else tb[ApiKey(p) := tb[ApiKey(p)].(lastUsed := FormatTime(when))]
  }

  /** The delete's condition on the record: absent, or still this id's. */
  predicate DeleteHolds(tb: Table, id: string, p: string) {
    ApiKey(p) !in tb || (tb[ApiKey(p)].Record? && tb[ApiKey(p)].keyId == id)
  }

  function DeleteTx(tb: Table, id: string, p: string): Table {
    if !DeleteHolds(tb, id, p) then tb else tb - {ApiKey(p), KeyId(id)}
  }

  /** FindByPrefix: the record, only while it is active. */
  function FindByPrefix(tb: Table, prefix: string): Option<Item> {
    if ValidOpaque(prefix, MAX_API_KEY_PREFIX_LEN) && IsRecord(tb, prefix) && tb[ApiKey(prefix)].active
    then Some(tb[ApiKey(prefix)]) else None
  }

  // ---- the bijection ------------------------------------------------------------

  /** KEYID#id points at prefix p exactly when the record at p carries id. */
  ghost predicate Bijection(tb: Table) {
    && (forall id :: KeyId(id) in tb ==>
          && tb[KeyId(id)].Pointer?
          && var p := tb[KeyId(id)].prefix; IsRecord(tb, p) && tb[ApiKey(p)].keyId == id)
    && (forall p :: ApiKey(p) in tb ==>
          && tb[ApiKey(p)].Record?
          && var id := tb[ApiKey(p)].keyId; KeyId(id) in tb && tb[KeyId(id)] == Pointer(p))
  }

  lemma SaveKeepsBijection(tb: Table, id: string, p: string, record: Item)
    requires Bijection(tb) && record.Record? && record.keyId == id
    ensures Bijection(SaveTx(tb, id, p, record).1)
  {
  }

  /** Deleting through a resolved prefix keeps the bijection exactly when the pointer has not been moved meanwhile. */
  lemma DeleteKeepsBijectionIff(tb: Table, id: string, p: string)
    requires Bijection(tb) && DeleteHolds(tb, id, p)
    ensures Bijection(DeleteTx(tb, id, p)) <==> KeyId(id) !in tb || tb[KeyId(id)] == Pointer(p)
  {
    var after := DeleteTx(tb, id, p);
    if KeyId(id) in tb {
      var q := tb[KeyId(id)].prefix;
      if q != p {
        assert ApiKey(q) in after && KeyId(tb[ApiKey(q)].keyId) !in after;
      }
    } else if ApiKey(p) in tb {
      assert KeyId(tb[ApiKey(p)].keyId) in tb;
    }
  }

  /** The pointer-only fallback keeps the bijection exactly when there is no pointer left to drop. */
  lemma DropKeepsBijectionIff(tb: Table, id: string)
    requires Bijection(tb)
    ensures Bijection(tb - {KeyId(id)}) <==> KeyId(id) !in tb
  {
    if KeyId(id) in tb {
      var p := tb[KeyId(id)].prefix;
      assert ApiKey(p) in tb - {KeyId(id)};
    } else {
      assert tb - {KeyId(id)} == tb;
    }
  }

  lemma RecordUpdateKeepsBijection(tb: Table, p: string, record: Item)
    requires Bijection(tb) && IsRecord(tb, p) && record.Record? && record.keyId == tb[ApiKey(p)].keyId
    ensures Bijection(tb[ApiKey(p) := record])
  {
  }

  // ---- runs -----------------------------------------------------------------------

  /** `known` records that the id had been saved when the Revoke began. */
  datatype Call =
    | Revoking(id: string, known: bool)
    | RevokeWrite(id: string, prefix: string, known: bool)
    | Touching(id: string, when: TouchTime)
    | TouchWrite(id: string, prefix: string, when: TouchTime)
    | Finding(id: string)
    | FindRead(id: string, prefix: string)
    | Found(id: string, answer: Option<Item>)
    | Deleting(id: string)
    | DeleteCommit(id: string, prefix: string)
    | DropPointer(id: string)
    | Finished(outcome: Outcome)

  /**
   The shared table and the calls in flight, with three history variables: the ids ever
   saved, the ids a Revoke that began after their Save has reported revoked, and the
   instants written to each id's record.
   */
  datatype State = State(table: Table, calls: map<nat, Call>, saved: set<string>, revoked: set<string>, stamps: map<string, seq<TouchTime>>)

  datatype Step =
    | Save(id: string, prefix: string, service: string, active: bool, lastUsed: string, rest: int)
    | BeginRevoke(call: nat, id: string)
    | BeginTouch(call: nat, id: string, when: TouchTime)
    | BeginFind(call: nat, id: string)
    | BeginDelete(call: nat, id: string)
    | ReadPointer(call: nat)
    | Write(call: nat, replyLost: bool)
    | Fault(call: nat)
    | OtherPut(key: ItemKey, item: Item)
    | OtherDelete(key: ItemKey)

  function StampsOf(s: State, id: string): seq<TouchTime> {
    if id in s.stamps then s.stamps[id] else []
  }

  function Moved(s: State, c: nat, call: Call): State { s.(calls := s.calls[c := call]) }

  function ReadPointerStep(s: State, c: nat): State
    requires c in s.calls
  {
    var call := s.calls[c];
    match call
    case Revoking(id, known) =>
      (match PrefixForId(s.table, id)
       case None => Moved(s, c, Finished(Success)).(revoked := if known then s.revoked + {id} else s.revoked)
       case Some(p) => Moved(s, c, RevokeWrite(id, p, known)))
    case Touching(id, when) =>
      (match PrefixForId(s.table, id)
       case None => Moved(s, c, Finished(Success))
       case Some(p) => Moved(s, c, TouchWrite(id, p, when)))
    case Finding(id) =>
      (match PrefixForId(s.table, id)
       case None => Moved(s, c, Found(id, None))
       case Some(p) => Moved(s, c, FindRead(id, p)))
    case Deleting(id) =>
      (match PrefixForId(s.table, id)
       case None => Moved(s, c, Finished(Success))
       case Some(p) => Moved(s, c, DeleteCommit(id, p)))
    case _ => s
  }

  /** The call that follows the pointer read; a write whose reply is lost takes effect and reports a fault. */
  function WriteStep(s: State, c: nat, replyLost: bool): State
    requires c in s.calls
  {
    var call := s.calls[c];
    var done := Finished(if replyLost then StoreFault else Success);
    match call
    case RevokeWrite(id, p, known) =>
      Moved(s, c, done).(table := RevokeUpdate(s.table, p),
                         revoked := if known && !replyLost then s.revoked + {id} else s.revoked)
    case TouchWrite(_, p, when) =>
      Moved(s, c, done).(table := TouchUpdate(s.table, p, when),
                         stamps := if TouchHolds(s.table, p, when)
                                   then s.stamps[s.table[ApiKey(p)].keyId := StampsOf(s, s.table[ApiKey(p)].keyId) + [when]]
                                   else s.stamps)
    case FindRead(id, p) => Moved(s, c, Found(id, if IsRecord(s.table, p) then Some(s.table[ApiKey(p)]) else None))
    case DeleteCommit(id, p) =>
      if DeleteHolds(s.table, id, p) then Moved(s, c, done).(table := DeleteTx(s.table, id, p))
      else Moved(s, c, if replyLost then done else DropPointer(id))
    case DropPointer(id) => Moved(s, c, done).(table := s.table - {KeyId(id)})
    case _ => s
  }

  function Next(s: State, step: Step): State {
    match step
    case Save(id, prefix, service, active, lastUsed, rest) =>
      if !ValidRecord(id, prefix, service) then s
      else
        var (outcome, after) := SaveTx(s.table, id, prefix, Record(id, active, lastUsed, rest));
        s.(table := after, saved := if outcome == Success then s.saved + {id} else s.saved)
    case BeginRevoke(c, id) => if c in s.calls then s else Moved(s, c, Revoking(id, id in s.saved))
    case BeginTouch(c, id, when) => if c in s.calls then s else Moved(s, c, Touching(id, when))
    case BeginFind(c, id) => if c in s.calls then s else Moved(s, c, Finding(id))
    case BeginDelete(c, id) => if c in s.calls then s else Moved(s, c, Deleting(id))
    case ReadPointer(c) => if c in s.calls then ReadPointerStep(s, c) else s
    case Write(c, replyLost) => if c in s.calls then WriteStep(s, c, replyLost) else s
    case Fault(c) => if c in s.calls && !s.calls[c].Finished? then Moved(s, c, Finished(StoreFault)) else s
    case OtherPut(k, item) => if k.ApiKey? || k.KeyId? then s else s.(table := s.table[k := item])
    case OtherDelete(k) => if k.ApiKey? || k.KeyId? then s else s.(table := s.table - {k})
  }

  function Run(s: State, steps: seq<Step>): State {
    if steps == [] then s else Next(Run(s, steps[..|steps| - 1]), steps[|steps| - 1])
  }

  // ---- no orphan under concurrent deletes --------------------------------------------

  predicate DeletesId(call: Call, id: string) {
    (call.DeleteCommit? || call.DropPointer?) && call.id == id
  }

  /** An id is not saved while a Delete of the same id is past its pointer read. */
  ghost predicate Undisturbed(s: State, step: Step) {
    step.Save? ==> forall c :: c in s.calls ==> !DeletesId(s.calls[c], step.id)
  }

  ghost predicate UndisturbedRun(s: State, steps: seq<Step>) {
    forall i :: 0 <= i < |steps| ==> Undisturbed(Run(s, steps[..i]), steps[i])
  }

  /** What a Delete in flight resolved is still so, unless the key is gone. */
  ghost predicate DeletesResolved(s: State) {
    forall c :: c in s.calls ==>
      && (s.calls[c].DeleteCommit? ==> KeyId(s.calls[c].id) in s.table ==> s.table[KeyId(s.calls[c].id)] == Pointer(s.calls[c].prefix))
      && (s.calls[c].DropPointer? ==> KeyId(s.calls[c].id) !in s.table)
  }

  ghost predicate Inv(s: State) { Bijection(s.table) && DeletesResolved(s) }

  lemma WriteKeepsInv(s: State, c: nat, replyLost: bool)
    requires Inv(s) && c in s.calls
    ensures Inv(WriteStep(s, c, replyLost))
  {
    var call, s' := s.calls[c], WriteStep(s, c, replyLost);
    match call
    case RevokeWrite(_, p, _) =>
      if IsRecord(s.table, p) { RecordUpdateKeepsBijection(s.table, p, s'.table[ApiKey(p)]); }
    case TouchWrite(_, p, when) =>
      if IsRecord(s.table, p) {
        assert s'.table == s.table || s'.table == s.table[ApiKey(p) := s'.table[ApiKey(p)]];
        RecordUpdateKeepsBijection(s.table, p, s'.table[ApiKey(p)]);
      }
    case DeleteCommit(id, p) =>
      if DeleteHolds(s.table, id, p) {
        DeleteKeepsBijectionIff(s.table, id, p);
      }
    case DropPointer(id) => DropKeepsBijectionIff(s.table, id);
    case _ =>
  }

  lemma MoveKeepsInv(s: State, c: nat, call: Call)
    requires Inv(s) && !call.DeleteCommit? && !call.DropPointer?
    ensures Inv(Moved(s, c, call))
  {
  }

  lemma DeleteReadKeepsInv(s: State, c: nat)
    requires Inv(s) && c in s.calls && s.calls[c].Deleting?
    ensures Inv(ReadPointerStep(s, c))
  {
  }

  lemma ReadKeepsInv(s: State, c: nat)
    requires Inv(s) && c in s.calls
    ensures Inv(ReadPointerStep(s, c))
  {
    var s' := ReadPointerStep(s, c);
    match s.calls[c]
    case Deleting(_) => DeleteReadKeepsInv(s, c);
    case Revoking(_, _) => MoveKeepsInv(s, c, s'.calls[c]);
    case Touching(_, _) => MoveKeepsInv(s, c, s'.calls[c]);
    case Finding(_) => MoveKeepsInv(s, c, s'.calls[c]);
    case _ =>
  }

  lemma NextKeepsInv(s: State, step: Step)
    requires Inv(s) && Undisturbed(s, step)
    ensures Inv(Next(s, step))
  {
    match step
    case Save(id, prefix, _, active, lastUsed, rest) =>
      SaveKeepsBijection(s.table, id, prefix, Record(id, active, lastUsed, rest));
    case ReadPointer(c) => if c in s.calls { ReadKeepsInv(s, c); }
    case Write(c, replyLost) => if c in s.calls { WriteKeepsInv(s, c, replyLost); }
    case _ =>
  }

  /** Records and pointers stay in bijection in every interleaving that does not save an id under its own delete. */
  lemma {:induction false} EveryRunKeepsBijection(s: State, steps: seq<Step>)
    requires Inv(s) && UndisturbedRun(s, steps)
    ensures Inv(Run(s, steps))
    decreases |steps|
  {
    if steps != [] {
      var before := steps[..|steps| - 1];
      forall i | 0 <= i < |before| ensures Undisturbed(Run(s, before[..i]), before[i]) {
        assert before[..i] == steps[..i];
      }
      EveryRunKeepsBijection(s, before);
      NextKeepsInv(Run(s, before), steps[|steps| - 1]);
    }
  }

  /** Neither half of a Delete ever removes, or cuts off, the record of another id. */
  lemma DeleteSparesOtherIds(s: State, steps: seq<Step>, c: nat, replyLost: bool, p: string)
    requires Inv(s) && UndisturbedRun(s, steps)
    requires var now := Run(s, steps); c in now.calls && (now.calls[c].DeleteCommit? || now.calls[c].DropPointer?)
    requires var now := Run(s, steps); IsRecord(now.table, p) && now.table[ApiKey(p)].keyId != now.calls[c].id
    ensures var now := Run(s, steps);
            var after := WriteStep(now, c, replyLost).table;
            && ApiKey(p) in after && after[ApiKey(p)] == now.table[ApiKey(p)]
            && PrefixForId(after, now.table[ApiKey(p)].keyId) == PrefixForId(now.table, now.table[ApiKey(p)].keyId)
  {
    EveryRunKeepsBijection(s, steps);
    DeleteStepSparesOtherIds(Run(s, steps), c, replyLost, p);
  }

  lemma DeleteStepSparesOtherIds(s: State, c: nat, replyLost: bool, p: string)
    requires Inv(s) && c in s.calls && (s.calls[c].DeleteCommit? || s.calls[c].DropPointer?)
    requires IsRecord(s.table, p) && s.table[ApiKey(p)].keyId != s.calls[c].id
    ensures var after := WriteStep(s, c, replyLost).table;
            && ApiKey(p) in after && after[ApiKey(p)] == s.table[ApiKey(p)]
            && PrefixForId(after, s.table[ApiKey(p)].keyId) == PrefixForId(s.table, s.table[ApiKey(p)].keyId)
  {
  }

  // ---- a revoked key stays revoked ----------------------------------------------------

  /** Ids are minted fresh: none is saved twice. */
  predicate Fresh(s: State, step: Step) { step.Save? ==> step.id !in s.saved }

  ghost predicate FreshRun(s: State, steps: seq<Step>) {
    forall i :: 0 <= i < |steps| ==> Fresh(Run(s, steps[..i]), steps[i])
  }

  ghost predicate IdsSaved(s: State) {
    && (forall id :: KeyId(id) in s.table ==>
          id in s.saved && ValidId(id) && s.table[KeyId(id)].Pointer? && s.table[KeyId(id)].prefix != "")
    && s.revoked <= s.saved
  }

  /** A call past its pointer read still points at its own record, unless the key is gone. */
  ghost predicate CallResolved(s: State, call: Call) {
    match call
    case Revoking(id, known) => known ==> id in s.saved
    case RevokeWrite(id, p, known) => id in s.saved && (KeyId(id) in s.table ==> s.table[KeyId(id)] == Pointer(p))
    case TouchWrite(id, p, _) => id in s.saved && (KeyId(id) in s.table ==> s.table[KeyId(id)] == Pointer(p))
    case FindRead(id, p) => id in s.saved && (KeyId(id) in s.table ==> s.table[KeyId(id)] == Pointer(p))
    case DeleteCommit(id, _) => id in s.saved
    case DropPointer(id) => id in s.saved
    case _ => true
  }

  ghost predicate CallsResolved(s: State) {
    forall c :: c in s.calls ==> CallResolved(s, s.calls[c])
  }

  ghost predicate RevokedInactive(s: State) {
    forall p :: IsRecord(s.table, p) && s.table[ApiKey(p)].keyId in s.revoked ==> !s.table[ApiKey(p)].active
  }

  ghost predicate FreshInv(s: State) {
    Inv(s) && IdsSaved(s) && CallsResolved(s) && RevokedInactive(s)
  }

  lemma FreshIsUndisturbed(s: State, step: Step)
    requires FreshInv(s) && Fresh(s, step)
    ensures Undisturbed(s, step)
  {
    if step.Save? {
      forall c | c in s.calls ensures !DeletesId(s.calls[c], step.id) {
        assert CallResolved(s, s.calls[c]);
      }
    }
  }

  lemma SaveKeepsFreshInv(s: State, step: Step)
    requires FreshInv(s) && step.Save? && Fresh(s, step)
    ensures FreshInv(Next(s, step))
  {
    FreshIsUndisturbed(s, step);
    NextKeepsInv(s, step);
    var s' := Next(s, step);
    forall c | c in s'.calls ensures CallResolved(s', s'.calls[c]) {
      assert CallResolved(s, s.calls[c]);
    }
  }

  lemma ReadKeepsCallsResolved(s: State, c: nat)
    requires FreshInv(s) && c in s.calls
    ensures CallsResolved(ReadPointerStep(s, c))
  {
    var s' := ReadPointerStep(s, c);
    assert CallResolved(s, s.calls[c]);
    forall d | d in s'.calls ensures CallResolved(s', s'.calls[d]) {
      if d != c {
        assert CallResolved(s, s.calls[d]);
      }
    }
  }

  /** The pointer read either resolves the record or, the key being gone, settles the Revoke. */
  lemma ReadKeepsFreshInv(s: State, c: nat)
    requires FreshInv(s) && c in s.calls
    ensures FreshInv(ReadPointerStep(s, c))
  {
    ReadKeepsInv(s, c);
    ReadKeepsCallsResolved(s, c);
    ReadKeepsRevoked(s, c);
  }

  lemma ReadKeepsRevoked(s: State, c: nat)
    requires FreshInv(s) && c in s.calls
    ensures IdsSaved(ReadPointerStep(s, c)) && RevokedInactive(ReadPointerStep(s, c))
  {
    var s' := ReadPointerStep(s, c);
    assert CallResolved(s, s.calls[c]);
    assert s'.table == s.table;
    forall p | IsRecord(s.table, p) && s.table[ApiKey(p)].keyId in s'.revoked ensures !s.table[ApiKey(p)].active {
      assert KeyId(s.table[ApiKey(p)].keyId) in s.table;
    }
  }

  lemma WriteKeepsIdsSaved(s: State, c: nat, replyLost: bool)
    requires FreshInv(s) && c in s.calls
    ensures IdsSaved(WriteStep(s, c, replyLost))
  {
    assert CallResolved(s, s.calls[c]);
  }

  lemma WriteKeepsCallsResolved(s: State, c: nat, replyLost: bool)
    requires FreshInv(s) && c in s.calls
    ensures CallsResolved(WriteStep(s, c, replyLost))
  {
    var s' := WriteStep(s, c, replyLost);
    assert CallResolved(s, s.calls[c]);
    forall d | d in s'.calls ensures CallResolved(s', s'.calls[d]) {
      if d != c {
        assert CallResolved(s, s.calls[d]);
      }
    }
  }

  lemma WriteKeepsRevokedInactive(s: State, c: nat, replyLost: bool)
    requires FreshInv(s) && c in s.calls
    ensures RevokedInactive(WriteStep(s, c, replyLost))
  {
    var s' := WriteStep(s, c, replyLost);
    assert CallResolved(s, s.calls[c]);
    forall p | IsRecord(s'.table, p) && s'.table[ApiKey(p)].keyId in s'.revoked ensures !s'.table[ApiKey(p)].active {
      assert IsRecord(s.table, p) && s.table[ApiKey(p)].keyId == s'.table[ApiKey(p)].keyId;
      assert KeyId(s.table[ApiKey(p)].keyId) in s.table;
    }
  }

  /** A step that only begins a call, or loses one. */
  lemma BeginKeepsFreshInv(s: State, step: Step)
    requires FreshInv(s) && !step.Save? && !step.ReadPointer? && !step.Write? && Inv(Next(s, step))
    ensures FreshInv(Next(s, step))
  {
    var s' := Next(s, step);
    forall c | c in s'.calls ensures CallResolved(s', s'.calls[c]) {
      if c in s.calls {
        assert CallResolved(s, s.calls[c]);
      }
    }
  }

  lemma NextKeepsFreshInv(s: State, step: Step)
    requires FreshInv(s) && Fresh(s, step)
    ensures FreshInv(Next(s, step))
  {
    FreshIsUndisturbed(s, step);
    NextKeepsInv(s, step);
    match step
    case Save(_, _, _, _, _, _) => SaveKeepsFreshInv(s, step);
    case ReadPointer(c) => if c in s.calls { ReadKeepsFreshInv(s, c); }
    case Write(c, replyLost) =>
      if c in s.calls {
        WriteKeepsIdsSaved(s, c, replyLost);
        WriteKeepsCallsResolved(s, c, replyLost);
        WriteKeepsRevokedInactive(s, c, replyLost);
      }
    case _ => BeginKeepsFreshInv(s, step);
  }

  lemma {:induction false} EveryFreshRunKeepsInv(s: State, steps: seq<Step>)
    requires FreshInv(s) && FreshRun(s, steps)
    ensures FreshInv(Run(s, steps))
    decreases |steps|
  {
    if steps != [] {
      var before := steps[..|steps| - 1];
      forall i | 0 <= i < |before| ensures Fresh(Run(s, before[..i]), before[i]) {
        assert before[..i] == steps[..i];
      }
      EveryFreshRunKeepsInv(s, before);
      NextKeepsFreshInv(Run(s, before), steps[|steps| - 1]);
    }
  }

  /** `revoked` only grows. */
  lemma {:induction false} RevokedGrows(s: State, steps: seq<Step>, later: seq<Step>)
    ensures Run(s, steps).revoked <= Run(s, steps + later).revoked
    decreases |later|
  {
    if later == [] {
      assert steps + later == steps;
    } else {
      var n := |later| - 1;
      RevokedGrows(s, steps, later[..n]);
      assert (steps + later)[..|steps + later| - 1] == steps + later[..n];
    }
  }

  lemma WriteRecordsRevoke(s: State, c: nat)
    requires c in s.calls && s.calls[c].RevokeWrite? && s.calls[c].known
    ensures s.calls[c].id in Next(s, Write(c, false)).revoked
  {
  }

  /**
   Once a Revoke that began after its key was saved has reported success, no later
   FindByPrefix returns the key, whatever was deleted or reused in between.
   */
  lemma RevokedKeyNeverAuthenticates(s: State, steps: seq<Step>, later: seq<Step>, c: nat, p: string)
    requires var before := Run(s, steps); c in before.calls && before.calls[c].RevokeWrite? && before.calls[c].known
    requires FreshInv(s) && FreshRun(s, steps + [Write(c, false)] + later)
    ensures var id := Run(s, steps).calls[c].id;
            var found := FindByPrefix(Run(s, steps + [Write(c, false)] + later).table, p);
            found == None || found.value.keyId != id
  {
    var id := Run(s, steps).calls[c].id;
    RunSnoc(s, steps, Write(c, false));
    WriteRecordsRevoke(Run(s, steps), c);
    RevokedGrows(s, steps + [Write(c, false)], later);
    RevokedIsNotFound(s, steps + [Write(c, false)] + later, id, p);
  }

  /** No reachable state lets a key reported revoked be found, including one whose Revoke found no pointer. */
  lemma RevokedIsNotFound(s: State, steps: seq<Step>, id: string, p: string)
    requires FreshInv(s) && FreshRun(s, steps) && id in Run(s, steps).revoked
    ensures var found := FindByPrefix(Run(s, steps).table, p); found == None || found.value.keyId != id
  {
    EveryFreshRunKeepsInv(s, steps);
  }

  /** A Revoke, an UpdateLastUsed or a FindByID between its pointer read and its second call. */
  predicate Hopping(call: Call) { call.RevokeWrite? || call.TouchWrite? || call.FindRead? }

  predicate OwnRecord(tb: Table, id: string, p: string) { IsRecord(tb, p) && tb[ApiKey(p)].keyId == id }

  lemma OwnWhileItsKeyExists(s: State, c: nat)
    requires FreshInv(s) && c in s.calls && Hopping(s.calls[c])
    ensures OwnRecord(s.table, s.calls[c].id, s.calls[c].prefix) <==> KeyId(s.calls[c].id) in s.table
  {
    assert CallResolved(s, s.calls[c]);
  }

  /** Past the pointer read a call meets its own record exactly as long as its key has not been deleted. */
  lemma WriteLandsOnItsOwnRecord(s: State, steps: seq<Step>, c: nat)
    requires FreshInv(s) && FreshRun(s, steps)
    requires c in Run(s, steps).calls && Hopping(Run(s, steps).calls[c])
    ensures var now := Run(s, steps);
            OwnRecord(now.table, now.calls[c].id, now.calls[c].prefix) <==> KeyId(now.calls[c].id) in now.table
  {
    EveryFreshRunKeepsInv(s, steps);
    OwnWhileItsKeyExists(Run(s, steps), c);
  }

  /** Some key other than `id` is active before and not after. */
  ghost predicate DeactivatesAnother(tb: Table, after: Table, id: string) {
    exists q :: IsRecord(tb, q) && tb[ApiKey(q)].active && tb[ApiKey(q)].keyId != id && IsRecord(after, q) && !after[ApiKey(q)].active
  }

  lemma RevokeUpdateHitsIff(tb: Table, id: string, p: string)
    ensures DeactivatesAnother(tb, RevokeUpdate(tb, p), id) <==>
            IsRecord(tb, p) && tb[ApiKey(p)].active && tb[ApiKey(p)].keyId != id
  {
    if IsRecord(tb, p) && tb[ApiKey(p)].active && tb[ApiKey(p)].keyId != id {
      assert IsRecord(RevokeUpdate(tb, p), p) && !RevokeUpdate(tb, p)[ApiKey(p)].active;
    }
  }

  /** A Revoke's write deactivates somebody else's key exactly when its own is gone and an active one has its prefix. */
  lemma RevokeHitsAnotherKeyIff(s: State, steps: seq<Step>, c: nat)
    requires FreshInv(s) && FreshRun(s, steps)
    requires c in Run(s, steps).calls && Run(s, steps).calls[c].RevokeWrite?
    ensures var now := Run(s, steps);
            var (id, p) := (now.calls[c].id, now.calls[c].prefix);
            DeactivatesAnother(now.table, Next(now, Write(c, false)).table, id)
            <==> KeyId(id) !in now.table && IsRecord(now.table, p) && now.table[ApiKey(p)].active
  {
    EveryFreshRunKeepsInv(s, steps);
    RevokeStepHitsIff(Run(s, steps), c);
  }

  lemma RevokeStepHitsIff(s: State, c: nat)
    requires FreshInv(s) && c in s.calls && s.calls[c].RevokeWrite?
    ensures var (id, p) := (s.calls[c].id, s.calls[c].prefix);
            DeactivatesAnother(s.table, Next(s, Write(c, false)).table, id)
            <==> KeyId(id) !in s.table && IsRecord(s.table, p) && s.table[ApiKey(p)].active
  {
    var id, p := s.calls[c].id, s.calls[c].prefix;
    OwnWhileItsKeyExists(s, c);
    assert Next(s, Write(c, false)).table == RevokeUpdate(s.table, p);
    RevokeUpdateHitsIff(s.table, id, p);
  }

  /** Some key other than `id` has one more stamp. */
  ghost predicate StampsAnother(s: State, after: State, id: string) {
    exists k :: k != id && StampsOf(after, k) != StampsOf(s, k)
  }

  lemma TouchStepHitsIff(s: State, c: nat)
    requires FreshInv(s) && c in s.calls && s.calls[c].TouchWrite?
    ensures StampsAnother(s, Next(s, Write(c, false)), s.calls[c].id)
            <==> KeyId(s.calls[c].id) !in s.table && TouchHolds(s.table, s.calls[c].prefix, s.calls[c].when)
  {
    OwnWhileItsKeyExists(s, c);
    TouchHitsIff(s, c);
  }

  lemma TouchHitsIff(s: State, c: nat)
    requires c in s.calls && s.calls[c].TouchWrite?
    ensures var (call, tb) := (s.calls[c], s.table);
            StampsAnother(s, WriteStep(s, c, false), call.id) <==>
            TouchHolds(tb, call.prefix, call.when) && tb[ApiKey(call.prefix)].keyId != call.id
  {
    var call, after := s.calls[c], WriteStep(s, c, false);
    if TouchHolds(s.table, call.prefix, call.when) {
      var k := s.table[ApiKey(call.prefix)].keyId;
      assert |StampsOf(after, k)| == |StampsOf(s, k)| + 1;
    }
  }

  /** An UpdateLastUsed's write stamps somebody else's key exactly when its own is gone and the next holder's throttle allows it. */
  lemma TouchHitsAnotherKeyIff(s: State, steps: seq<Step>, c: nat)
    requires FreshInv(s) && FreshRun(s, steps)
    requires c in Run(s, steps).calls && Run(s, steps).calls[c].TouchWrite?
    ensures var now := Run(s, steps);
            var call := now.calls[c];
            StampsAnother(now, Next(now, Write(c, false)), call.id)
            <==> KeyId(call.id) !in now.table && TouchHolds(now.table, call.prefix, call.when)
  {
    EveryFreshRunKeepsInv(s, steps);
    TouchStepHitsIff(Run(s, steps), c);
  }

  /** FindByID answers with its own key's record exactly while the key exists, and with another key's exactly when its prefix was reused. */
  lemma FindAnswersItsOwnRecordIff(s: State, steps: seq<Step>, c: nat)
    requires FreshInv(s) && FreshRun(s, steps)
    requires c in Run(s, steps).calls && Run(s, steps).calls[c].FindRead?
    ensures var now := Run(s, steps);
            var (id, p) := (now.calls[c].id, now.calls[c].prefix);
            var answer := Next(now, Write(c, false)).calls[c].answer;
            && (answer.Some? ==> answer.value.Record?)
            && (answer.Some? && answer.value.keyId == id <==> KeyId(id) in now.table)
            && (answer.Some? && answer.value.keyId != id <==> KeyId(id) !in now.table && IsRecord(now.table, p))
  {
    WriteLandsOnItsOwnRecord(s, steps, c);
    FindReads(Run(s, steps), c);
  }

  lemma FindReads(s: State, c: nat)
    requires c in s.calls && s.calls[c].FindRead?
    ensures var (id, p, answer) := (s.calls[c].id, s.calls[c].prefix, Next(s, Write(c, false)).calls[c].answer);
            && (answer.Some? <==> IsRecord(s.table, p)) && (answer.Some? ==> answer.value.Record?)
            && (answer.Some? && answer.value.keyId == id <==> OwnRecord(s.table, id, p))
  {
  }

  // ---- why the hypotheses are needed -----------------------------------------------------

  lemma RunSnoc(s: State, steps: seq<Step>, step: Step)
    ensures Run(s, steps + [step]) == Next(Run(s, steps), step)
  {
    assert (steps + [step])[..|steps|] == steps;
  }

  function OneKey(): State {
    State(map[ApiKey("p") := Record("k", true, "", 0), KeyId("k") := Pointer("p")], map[], {"k"}, {}, map[])
  }

  /** A Revoke resolves "p", the key is deleted, and another key takes the prefix before the write. */
  function RevokeOverReuse(): seq<Step> {
    RevokeRead() + [BeginDelete(1, "k")] + [ReadPointer(1)] + [Write(1, false)]
    + [Save("k2", "p", "", true, "", 0)] + [Write(0, false)]
  }

  /**
   Revoke's write is conditional on the record existing, not on whose it is: after the
   prefix is reused it deactivates a key nobody revoked.
   */
  lemma RevokeMayHitAReusedPrefix()
    ensures FreshInv(OneKey())
    ensures var now := Run(OneKey(), RevokeOverReuse());
            && now.table == map[ApiKey("p") := Record("k2", false, "", 0), KeyId("k2") := Pointer("p")]
            && "k2" !in now.revoked
  {
    var s, reuse := OneKey(), Save("k2", "p", "", true, "", 0);
    OneKeyIsReachable();
    RevokeReadsThenKeyDies();
    var gone := RevokeRead() + [BeginDelete(1, "k")] + [ReadPointer(1)] + [Write(1, false)];
    RunSnoc(s, gone, reuse);
    RunSnoc(s, gone + [reuse], Write(0, false));
  }

  function RevokeRead(): seq<Step> { [BeginRevoke(0, "k")] + [ReadPointer(0)] }

  lemma OneKeyIsReachable()
    ensures FreshInv(OneKey())
  {
  }

  lemma RevokeReads()
    ensures Run(OneKey(), RevokeRead()) == OneKey().(calls := map[0 := RevokeWrite("k", "p", true)])
  {
    RevokeBegins();
    RunSnoc(OneKey(), [BeginRevoke(0, "k")], ReadPointer(0));
    assert PrefixForId(OneKey().table, "k") == Some("p");
  }

  lemma RevokeBegins()
    ensures Run(OneKey(), [BeginRevoke(0, "k")]) == OneKey().(calls := map[0 := Revoking("k", true)])
  {
    var a := [BeginRevoke(0, "k")];
    RunSnoc(OneKey(), [], BeginRevoke(0, "k"));
    assert [] + a == a;
  }

  lemma DeleteReads()
    ensures Run(OneKey(), RevokeRead() + [BeginDelete(1, "k")] + [ReadPointer(1)]) ==
            OneKey().(calls := map[0 := RevokeWrite("k", "p", true), 1 := DeleteCommit("k", "p")])
  {
    RevokeReads();
    RunSnoc(OneKey(), RevokeRead(), BeginDelete(1, "k"));
    RunSnoc(OneKey(), RevokeRead() + [BeginDelete(1, "k")], ReadPointer(1));
  }

  lemma RevokeReadsThenKeyDies()
    ensures var now := Run(OneKey(), RevokeRead() + [BeginDelete(1, "k")] + [ReadPointer(1)] + [Write(1, false)]);
            && now.table == map[] && now.revoked == {}
            && 0 in now.calls && now.calls[0] == RevokeWrite("k", "p", true)
  {
    DeleteReads();
    RunSnoc(OneKey(), RevokeRead() + [BeginDelete(1, "k")] + [ReadPointer(1)], Write(1, false));
  }

  /** Saving an id again, at another prefix, while its Delete is in flight loses the new key's pointer. */
  lemma ResavedIdMayBeOrphaned()
    ensures var tb := map[ApiKey("q") := Record("k", true, "", 0), KeyId("k") := Pointer("q")];
            Bijection(tb) && DeleteTx(tb, "k", "p") == map[ApiKey("q") := Record("k", true, "", 0)]
  {
  }

  // ---- the lastUsedAt throttle -------------------------------------------------------------

  ghost predicate Spaced(ws: seq<TouchTime>) {
    forall i :: 0 < i < |ws| ==> Nanos(ws[i]) - Nanos(ws[i - 1]) > THROTTLE
  }

  /** The record at `p` shows the last instant written to its key, if any was. */
  ghost predicate ShowsLastStamp(s: State, p: string)
    requires IsRecord(s.table, p)
  {
    var ws := StampsOf(s, s.table[ApiKey(p)].keyId);
    ws != [] ==> s.table[ApiKey(p)].lastUsed == FormatTime(ws[|ws| - 1])
  }

  ghost predicate StampsSpaced(s: State) {
    && (forall id :: Spaced(StampsOf(s, id)))
    && (forall id :: StampsOf(s, id) != [] ==> id in s.saved)
    && (forall p :: IsRecord(s.table, p) ==> ShowsLastStamp(s, p))
  }

  /** The text comparison admits a write only more than a minute after the stamp it replaces. */
  lemma TouchIsThrottled(tb: Table, p: string, when: TouchTime, last: TouchTime)
    requires TouchHolds(tb, p, when) && tb[ApiKey(p)].lastUsed == FormatTime(last)
    ensures Nanos(when) - Nanos(last) > THROTTLE
  {
    FormatTimeOrder(last, Plus(when, -THROTTLE));
    assert |FormatTime(last)| > 0;
  }

  lemma StampsStaySpaced(s: State, p: string, when: TouchTime)
    requires StampsSpaced(s) && TouchHolds(s.table, p, when)
    ensures Spaced(StampsOf(s, s.table[ApiKey(p)].keyId) + [when])
  {
    assert ShowsLastStamp(s, p);
    var ws := StampsOf(s, s.table[ApiKey(p)].keyId);
    if ws != [] {
      TouchIsThrottled(s.table, p, when, ws[|ws| - 1]);
    }
  }

  /** Steps that write no stamp: every record keeps its key and stamp, or is new under a fresh id. */
  lemma UnstampedKeepsSpaced(s: State, s': State)
    requires StampsSpaced(s) && s'.stamps == s.stamps && s.saved <= s'.saved
    requires forall p :: IsRecord(s'.table, p) ==>
               || s'.table[ApiKey(p)].keyId !in s.saved
               || (IsRecord(s.table, p) && s.table[ApiKey(p)].keyId == s'.table[ApiKey(p)].keyId
                   && s.table[ApiKey(p)].lastUsed == s'.table[ApiKey(p)].lastUsed)
    ensures StampsSpaced(s')
  {
    forall id ensures StampsOf(s', id) == StampsOf(s, id) {
    }
    forall p | IsRecord(s'.table, p) ensures ShowsLastStamp(s', p) {
      if s'.table[ApiKey(p)].keyId in s.saved {
        assert ShowsLastStamp(s, p);
      }
    }
  }

  /** One more stamp for the record at `p`; the other records' keys are other ids. */
  lemma StampedKeepsSpaced(s: State, s': State, p: string, when: TouchTime)
    requires StampsSpaced(s) && TouchHolds(s.table, p, when) && s'.saved == s.saved
    requires var id := s.table[ApiKey(p)].keyId;
             && id in s.saved
             && s'.stamps == s.stamps[id := StampsOf(s, id) + [when]]
             && s'.table == TouchUpdate(s.table, p, when)
             && forall q :: IsRecord(s.table, q) && q != p ==> s.table[ApiKey(q)].keyId != id
    ensures StampsSpaced(s')
  {
    var id := s.table[ApiKey(p)].keyId;
    StampsStaySpaced(s, p, when);
    assert forall k :: StampsOf(s', k) == if k == id then StampsOf(s, id) + [when] else StampsOf(s, k);
    forall q | IsRecord(s'.table, q) ensures ShowsLastStamp(s', q) {
      if q != p {
        assert IsRecord(s.table, q) && s'.table[ApiKey(q)] == s.table[ApiKey(q)] && ShowsLastStamp(s, q);
      }
    }
  }

  lemma OneRecordPerId(tb: Table, p: string, q: string)
    requires Bijection(tb) && IsRecord(tb, p) && IsRecord(tb, q) && tb[ApiKey(p)].keyId == tb[ApiKey(q)].keyId
    ensures p == q && KeyId(tb[ApiKey(p)].keyId) in tb
  {
    assert tb[KeyId(tb[ApiKey(p)].keyId)] == Pointer(p);
  }

  lemma TouchKeepsStampsSpaced(s: State, c: nat, replyLost: bool)
    requires FreshInv(s) && StampsSpaced(s) && c in s.calls && s.calls[c].TouchWrite?
    ensures StampsSpaced(WriteStep(s, c, replyLost))
  {
    var s' := WriteStep(s, c, replyLost);
    var p, when := s.calls[c].prefix, s.calls[c].when;
    if TouchHolds(s.table, p, when) {
      OneRecordPerId(s.table, p, p);
      forall q | IsRecord(s.table, q) && q != p ensures s.table[ApiKey(q)].keyId != s.table[ApiKey(p)].keyId {
        if s.table[ApiKey(q)].keyId == s.table[ApiKey(p)].keyId { OneRecordPerId(s.table, p, q); }
      }
      StampedKeepsSpaced(s, s', p, when);
    } else {
      UnstampedKeepsSpaced(s, s');
    }
  }

  /** A Save puts a record under an id no stamp was ever written for. */
  lemma SaveKeepsSpaced(s: State, step: Step)
    requires StampsSpaced(s) && step.Save? && Fresh(s, step)
    ensures StampsSpaced(Next(s, step))
  {
    UnstampedKeepsSpaced(s, Next(s, step));
  }

  lemma WriteKeepsSpaced(s: State, c: nat, replyLost: bool)
    requires FreshInv(s) && StampsSpaced(s) && c in s.calls
    ensures StampsSpaced(WriteStep(s, c, replyLost))
  {
    match s.calls[c]
    case TouchWrite(_, _, _) => TouchKeepsStampsSpaced(s, c, replyLost);
    case RevokeWrite(_, _, _) => UnstampedKeepsSpaced(s, WriteStep(s, c, replyLost));
    case _ => OtherItemsKeepSpaced(s, WriteStep(s, c, replyLost));
  }

  lemma NextKeepsStampsSpaced(s: State, step: Step)
    requires FreshInv(s) && StampsSpaced(s) && Fresh(s, step)
    ensures StampsSpaced(Next(s, step))
  {
    match step
    case Save(_, _, _, _, _, _) => SaveKeepsSpaced(s, step);
    case Write(c, replyLost) => if c in s.calls { WriteKeepsSpaced(s, c, replyLost); }
    case ReadPointer(c) => if c in s.calls { ReadKeepsSpaced(s, c); }
    case _ => OtherItemsKeepSpaced(s, Next(s, step));
  }

  lemma ReadKeepsSpaced(s: State, c: nat)
    requires StampsSpaced(s) && c in s.calls
    ensures StampsSpaced(ReadPointerStep(s, c))
  {
    var s' := ReadPointerStep(s, c);
    assert s'.table == s.table && s'.stamps == s.stamps && s'.saved == s.saved;
    OtherItemsKeepSpaced(s, s');
  }

  /** Steps that touch no key item and write no stamp. */
  lemma OtherItemsKeepSpaced(s: State, s': State)
    requires StampsSpaced(s) && s'.stamps == s.stamps && s'.saved == s.saved
    requires forall p :: IsRecord(s'.table, p) ==> IsRecord(s.table, p) && s'.table[ApiKey(p)] == s.table[ApiKey(p)]
    ensures StampsSpaced(s')
  {
    UnstampedKeepsSpaced(s, s');
  }

  /** Over any run, whatever instants the callers pass in whatever order, one key's stamps are more than a minute apart. */
  lemma {:induction false} EveryRunSpacesStamps(s: State, steps: seq<Step>)
    requires FreshInv(s) && StampsSpaced(s) && FreshRun(s, steps)
    ensures StampsSpaced(Run(s, steps))
    decreases |steps|
  {
    if steps != [] {
      var before := steps[..|steps| - 1];
      forall i | 0 <= i < |before| ensures Fresh(Run(s, before[..i]), before[i]) {
        assert before[..i] == steps[..i];
      }
      EveryRunSpacesStamps(s, before);
      EveryFreshRunKeepsInv(s, before);
      NextKeepsStampsSpaced(Run(s, before), steps[|steps| - 1]);
    }
  }

  lemma {:induction false} SpacedSpan(ws: seq<TouchTime>)
    requires Spaced(ws) && ws != []
    ensures (|ws| - 1) * THROTTLE <= Nanos(ws[|ws| - 1]) - Nanos(ws[0])
    decreases |ws|
  {
    if |ws| > 1 {
      SpacedSpan(ws[..|ws| - 1]);
    }
  }

  /** At most floor(T / 60) + 1 writes whose instants span T seconds. */
  lemma WritesAreBounded(s: State, steps: seq<Step>, id: string, seconds: nat)
    requires FreshInv(s) && StampsSpaced(s) && FreshRun(s, steps)
    requires var ws := StampsOf(Run(s, steps), id);
             ws != [] ==> Nanos(ws[|ws| - 1]) - Nanos(ws[0]) <= seconds * NANOS_PER_SECOND
    ensures |StampsOf(Run(s, steps), id)| <= seconds / 60 + 1
  {
    EveryRunSpacesStamps(s, steps);
    var ws := StampsOf(Run(s, steps), id);
    if ws != [] {
      SpacedSpan(ws);
      CountWithin(|ws|, Nanos(ws[|ws| - 1]) - Nanos(ws[0]), seconds);
    }
  }

  lemma CountWithin(n: nat, span: int, seconds: nat)
    requires (n - 1) * THROTTLE <= span <= seconds * NANOS_PER_SECOND
    ensures n <= seconds / 60 + 1
  {
  }
}
