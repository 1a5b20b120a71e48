/**
 The API-key methods on the shared table, run one call after the other. Each is tied to
 the atomic calls of ApiKeys, which says what interleaving them keeps.
 */
module ApiKeyStore {
  import opened Bytes
  import opened Keys
  import opened Stamps
  import opened ApiKeys

  class Store {
    var items: Table

    constructor ()
      ensures items == map[] && Bijection(items)
    {
      items := map[];
    }

    /** Save: both items or neither, never over a taken prefix or id. */
    method Save(id: string, prefix: string, service: string, active: bool, lastUsed: string, rest: int) returns (r: Outcome)
      modifies this`items
      ensures r == InvalidInput <==> !ValidRecord(id, prefix, service)
      ensures (r, items) ==
              if r == InvalidInput then (InvalidInput, old(items))
              else SaveTx(old(items), id, prefix, Record(id, active, lastUsed, rest))
      ensures old(Bijection(items)) ==> Bijection(items)
      ensures r == Success ==> PrefixForId(items, id) == Some(prefix)
    {
      if !ValidId(id) || !ValidOpaque(prefix, MAX_API_KEY_PREFIX_LEN) {
        return InvalidInput;
      }
      if service != "" && !ValidOpaque(service, MAX_SERVICE_ID_LEN) {
        return InvalidInput;
      }
      if ApiKey(prefix) in items || KeyId(id) in items {
        return KeyExists;
      }
      items := items[ApiKey(prefix) := Record(id, active, lastUsed, rest)];
      items := items[KeyId(id) := Pointer(prefix)];
      return Success;
    }

    /** apiKeyPrefixForID: the pointer read every mutation starts with. */
    method ResolvePrefix(id: string) returns (prefix: Option<string>)
      ensures prefix == PrefixForId(items, id)
      ensures Bijection(items) && prefix.Some? ==> IsRecord(items, prefix.value) && items[ApiKey(prefix.value)].keyId == id
    {
      if !ValidId(id) || KeyId(id) !in items || !items[KeyId(id)].Pointer? || items[KeyId(id)].prefix == "" {
        return None;
      }
      return Some(items[KeyId(id)].prefix);
    }

    /** FindByID: the record whatever its state, through the pointer. */
    method FindById(id: string) returns (found: Option<Item>)
      ensures Bijection(items) ==>
                (found.Some? ==> found.value.Record? && found.value.keyId == id)
      ensures found.Some? <==> PrefixForId(items, id).Some? && IsRecord(items, PrefixForId(items, id).value)
      ensures found.Some? ==> found.value == items[ApiKey(PrefixForId(items, id).value)]
    {
      var prefix := ResolvePrefix(id);
      if prefix.None? || !IsRecord(items, prefix.value) {
        return None;
      }
      return Some(items[ApiKey(prefix.value)]);
    }

    /** Revoke: an unknown id is success, and so is a record that has gone. */
    method Revoke(id: string) returns (r: Outcome)
      modifies this`items
      ensures r == Success
      ensures items == if PrefixForId(old(items), id).None? then old(items)
                       else RevokeUpdate(old(items), PrefixForId(old(items), id).value)
      ensures old(Bijection(items)) ==>
                && Bijection(items)
                && (ValidId(id) ==> forall p :: FindByPrefix(items, p).Some? ==> FindByPrefix(items, p).value.keyId != id)
                && (forall p :: ApiKey(p) in items && items[ApiKey(p)].keyId != id ==> items[ApiKey(p)] == old(items)[ApiKey(p)])
    {
      ghost var before := items;
      var prefix := ResolvePrefix(id);
      if prefix.None? {
        if Bijection(items) && ValidId(id) {
          NoPointerNoRecord(items, id);
        }
        return Success;
      }
      var p := prefix.value;
      if IsRecord(items, p) {
        items := items[ApiKey(p) := items[ApiKey(p)].(active := false)];
        if Bijection(before) {
          RecordUpdateKeepsBijection(before, p, items[ApiKey(p)]);
          assert forall q :: IsRecord(before, q) && before[ApiKey(q)].keyId == id ==> before[KeyId(id)] == Pointer(q);
        }
      }
      return Success;
    }

    /** UpdateLastUsed: a lost throttle condition is success and writes nothing. */
    method UpdateLastUsed(id: string, when: TouchTime) returns (r: Outcome)
      modifies this`items
      ensures r == Success
      ensures items == if PrefixForId(old(items), id).None? then old(items)
                       else TouchUpdate(old(items), PrefixForId(old(items), id).value, when)
      ensures old(Bijection(items)) ==> Bijection(items)
    {
      ghost var before := items;
      var prefix := ResolvePrefix(id);
      if prefix.None? {
        return Success;
      }
      var p := prefix.value;
      var staleBefore := FormatTime(Plus(when, -THROTTLE));
      if IsRecord(items, p) && (items[ApiKey(p)].lastUsed == "" || Less(items[ApiKey(p)].lastUsed, staleBefore)) {
        items := items[ApiKey(p) := items[ApiKey(p)].(lastUsed := FormatTime(when))];
        if Bijection(before) {
          RecordUpdateKeepsBijection(before, p, items[ApiKey(p)]);
        }
      }
      return Success;
    }

    /** Delete: both items, or the pointer alone when the prefix has become somebody else's. */
    method Delete(id: string) returns (r: Outcome)
      modifies this`items
      ensures r == Success
      ensures match PrefixForId(old(items), id)
              case None => items == old(items)
              case Some(p) => items == if DeleteHolds(old(items), id, p) then DeleteTx(old(items), id, p) else old(items) - {KeyId(id)}
      ensures old(Bijection(items)) ==>
                && Bijection(items)
                && PrefixForId(items, id) == None
                && (forall p :: ApiKey(p) in old(items) && old(items)[ApiKey(p)].keyId != id ==>
                      ApiKey(p) in items && items[ApiKey(p)] == old(items)[ApiKey(p)])
    {
      ghost var before := items;
      var prefix := ResolvePrefix(id);
      if prefix.None? {
        return Success;
      }
      var p := prefix.value;
      if ApiKey(p) !in items || (items[ApiKey(p)].Record? && items[ApiKey(p)].keyId == id) {
        items := items - {ApiKey(p)};
        items := items - {KeyId(id)};
        assert items == DeleteTx(before, id, p);
        if Bijection(before) {
          DeleteKeepsBijectionIff(before, id, p);
        }
      } else {
        items := items - {KeyId(id)};
      }
      return Success;
    }
  }

  /** Without a pointer that resolves there is no record under the id that FindByPrefix could return. */
  lemma NoPointerNoRecord(tb: Table, id: string)
    requires Bijection(tb) && ValidId(id) && PrefixForId(tb, id) == None
    ensures forall p :: FindByPrefix(tb, p).Some? ==> FindByPrefix(tb, p).value.keyId != id
  {
    forall p | FindByPrefix(tb, p).Some? ensures FindByPrefix(tb, p).value.keyId != id {
      if tb[ApiKey(p)].keyId == id { FoundKeyResolves(tb, id, p); }
    }
  }

  lemma FoundKeyResolves(tb: Table, id: string, p: string)
    requires Bijection(tb) && ValidId(id) && FindByPrefix(tb, p).Some? && FindByPrefix(tb, p).value.keyId == id
    ensures PrefixForId(tb, id) == Some(p)
  {
    assert tb[KeyId(id)] == Pointer(p);
  }
}
