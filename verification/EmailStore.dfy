/**
 The store's methods on the shared table, as the source runs them one call after the
 other. Each is tied to the atomic calls of EmailChange, which says what interleaving
 them keeps.
 */
module EmailStore {
  import opened Keys
  import opened EmailChange

  class Store {
    const multiTenant: bool
    var items: Table

    constructor (multiTenant: bool)
      ensures this.multiTenant == multiTenant && items == map[] && Bijection(items)
    {
      this.multiTenant := multiTenant;
      items := map[];
    }

    /** UpdateEmailChangeToken: the pending address travels with the token, or nothing is written. */
    method UpdateEmailChangeToken(t: string, u: string, pendingEmail: string, hash: string, exp: string) returns (r: Outcome)
      modifies this`items
      ensures r == InvalidInput <==> !ValidEmail(Normalize(pendingEmail)) || !ValidUser(multiTenant, t, u) || hash == ""
      ensures (r, items) ==
              if r == InvalidInput then (InvalidInput, old(items)) else IssueTx(old(items), t, u, Normalize(pendingEmail), hash, exp)
      ensures old(Bijection(items)) ==> Bijection(items)
    {
      var pending := Normalize(pendingEmail);
      if !ValidEmail(pending) {
        return InvalidInput;
      }
      if !ValidTenant(multiTenant, t) || !ValidId(u) || hash == "" {
        return InvalidInput;
      }
      var pointer := Token(TokenFamily.EmailChange, hash);
      if !IsProfile(items, t, u) {
        return UserNotFound;
      }
      if pointer in items && items[pointer] != PointerItem(u, t) {
        return TokenHashTaken;
      }
      items := items[Profile(t, u) := items[Profile(t, u)].(pending := pending, hash := hash, exp := exp)];
      items := items[pointer := PointerItem(u, t)];
      return Success;
    }

    /** ClearEmailChangeToken: idempotent, and drops the pending address too. */
    method ClearEmailChangeToken(t: string, u: string) returns (r: Outcome)
      modifies this`items
      ensures (r, items) ==
              if ValidUser(multiTenant, t, u) then ClearUpdate(old(items), t, u) else (InvalidInput, old(items))
      ensures old(Bijection(items)) ==> Bijection(items)
    {
      if !ValidTenant(multiTenant, t) || !ValidId(u) {
        return InvalidInput;
      }
      if !IsProfile(items, t, u) {
        return UserNotFound;
      }
      items := items[Profile(t, u) := items[Profile(t, u)].(pending := "", hash := "", exp := "")];
      return Success;
    }

    /** CreateUser on the normalised address. */
    method CreateUser(t: string, u: string, address: string, rest: int) returns (r: Outcome)
      modifies this`items
      ensures r == InvalidInput <==> !ValidUser(multiTenant, t, u) || !ValidEmail(Normalize(address))
      ensures (r, items) ==
              if r == InvalidInput then (InvalidInput, old(items))
              else CreateTx(old(items), t, u, ProfileItem(Normalize(address), "", "", "", rest))
      ensures old(Bijection(items)) ==>
                && Bijection(items)
                && (r == Success ==> UserByEmail(items, t, Normalize(address)) == Bytes.Some(u))
    {
      if !ValidTenant(multiTenant, t) || !ValidId(u) {
        return InvalidInput;
      }
      var email := Normalize(address);
      if !ValidEmail(email) {
        return InvalidInput;
      }
      if Profile(t, u) in items || Email(t, email) in items {
        return UserExists;
      }
      items := items[Profile(t, u) := ProfileItem(email, "", "", "", rest)];
      items := items[Email(t, email) := EmailItem(u, t)];
      items := items[Member(t, u) := OtherItem(0)];
      return Success;
    }

    /**
     ApplyEmailChange: a read that only names the two address keys, then the transaction that
     decides. With no other call in between it succeeds exactly when an address is pending,
     is usable, differs from the current one and is free.
     */
    method ApplyEmailChange(t: string, u: string) returns (r: Outcome)
      modifies this`items
      ensures !ValidUser(multiTenant, t, u) ==> r == InvalidInput && items == old(items)
      ensures ValidUser(multiTenant, t, u) ==>
                match ReadForChange(old(items), t, u)
                case Stop(outcome) => r == outcome && items == old(items)
                case Proceed(current, pending) => (r, items) == CommitTx(old(items), t, u, current, pending)
      ensures old(Bijection(items)) ==> Bijection(items) && r != InvalidToken
      ensures r == Success <==>
                && ValidUser(multiTenant, t, u)
                && old(IsProfile(items, t, u))
                && var p := old(items)[Profile(t, u)];
                   ValidEmail(p.pending) && p.pending != p.email && Email(t, p.pending) !in old(items)
    {
      if !ValidTenant(multiTenant, t) || !ValidId(u) {
        return InvalidInput;
      }
      if !IsProfile(items, t, u) {
        return UserNotFound;
      }
      var current, pending := items[Profile(t, u)].email, items[Profile(t, u)].pending;
      if pending == "" {
        return NoPendingChange;
      }
      if !ValidEmail(pending) {
        return InvalidInput;
      }
      if pending == current {
        return UserExists;
      }
      r := CommitChange(t, u, current, pending);
    }

    /** The transaction of ApplyEmailChange, on whatever the table holds by then. */
    method CommitChange(t: string, u: string, current: string, pending: string) returns (r: Outcome)
      requires pending != current
      modifies this`items
      ensures (r, items) == CommitTx(old(items), t, u, current, pending)
      ensures old(Bijection(items)) ==> Bijection(items)
    {
      ghost var before := items;
      var putHolds := Email(t, pending) !in items;
      var updateHolds := IsProfile(items, t, u)
                         && items[Profile(t, u)].email == current && items[Profile(t, u)].pending == pending;
      if putHolds && updateHolds {
        items := items[Email(t, pending) := EmailItem(u, t)];
        items := items - {Email(t, current)};
        items := items[Profile(t, u) := items[Profile(t, u)].(email := pending, pending := "")];
        assert items == CommitTx(before, t, u, current, pending).1;
        r := Success;
      } else if !putHolds {
        r := UserExists;
      } else if !IsProfile(items, t, u) {
        r := UserNotFound;
      } else {
        r := InvalidToken;
      }
      if Bijection(before) {
        CommitKeepsBijection(before, t, u, current, pending);
      }
    }
  }
}
