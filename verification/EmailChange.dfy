/**
 Email addresses and their uniqueness items (internal/store/dynamodb/feature_tokens.go,
 tokens.go and users.go). An address is unique because a second item, EMAIL#t#e, is
 written with the profile under attribute_not_exists; ApplyEmailChange moves that item
 after reading the two addresses in an earlier, separate call. Here every DynamoDB call
 is one atomic step on the shared table and any number of calls interleave.
 */
module EmailChange {
  import opened Bytes
  import opened Keys

  /** One stored item; "" stands for an attribute that is absent. `rest` is every attribute no step here reads. */
  datatype Item =
    | ProfileItem(email: string, pending: string, hash: string, exp: string, rest: int)
    | EmailItem(user: string, tenant: string)
    | PointerItem(user: string, tenant: string)
    | OtherItem(rest: int)

  type Table = map<ItemKey, Item>

  datatype Outcome =
    Success | UserNotFound | UserExists | NoPendingChange | InvalidToken | InvalidInput | TokenHashTaken | StoreFault

  predicate IsProfile(tb: Table, t: string, u: string) {
    Profile(t, u) in tb && tb[Profile(t, u)].ProfileItem?
  }

  // ---- the atomic calls ----------------------------------------------------

  /** CreateUser's transaction: profile and address item if both are absent, membership always. */
  function CreateTx(tb: Table, t: string, u: string, profile: Item): (r: (Outcome, Table))
    requires profile.ProfileItem?
  {
    if Profile(t, u) in tb || Email(t, profile.email) in tb then (UserExists, tb)
    else (Success, tb[Profile(t, u) := profile][Email(t, profile.email) := EmailItem(u, t)][Member(t, u) := OtherItem(0)])
  }

  /** issueSingleUseToken for the email-change family: token, expiry and pending address in one write. */
  function IssueTx(tb: Table, t: string, u: string, pending: string, hash: string, exp: string): (r: (Outcome, Table)) {
    var pointer := Token(TokenFamily.EmailChange, hash);
    if !IsProfile(tb, t, u) then (UserNotFound, tb)
    else if pointer in tb && tb[pointer] != PointerItem(u, t) then (TokenHashTaken, tb)
    else
      var p := tb[Profile(t, u)].(pending := pending, hash := hash, exp := exp);
      (Success, tb[Profile(t, u) := p][pointer := PointerItem(u, t)])
  }

  /** clearSingleUseToken: drops the pending address with the token. */
  function ClearUpdate(tb: Table, t: string, u: string): (r: (Outcome, Table)) {
    if !IsProfile(tb, t, u) then (UserNotFound, tb)
    else (Success, tb[Profile(t, u) := tb[Profile(t, u)].(pending := "", hash := "", exp := "")])
  }

  /** consumeSingleUseToken: removes hash and expiry only; `live` is the expiry comparison. */
  function ConsumeUpdate(tb: Table, t: string, u: string, hash: string, live: bool): (r: (Outcome, Table)) {
    if !IsProfile(tb, t, u) || tb[Profile(t, u)].hash != hash || hash == "" || !live then (InvalidToken, tb)
    else (Success, tb[Profile(t, u) := tb[Profile(t, u)].(hash := "", exp := "")])
  }

  /** What ApplyEmailChange does with the profile it read: stop, or carry both addresses to the commit. */
  datatype Reading = Stop(outcome: Outcome) | Proceed(current: string, pending: string)

  function ReadForChange(tb: Table, t: string, u: string): Reading {
    if !IsProfile(tb, t, u) then Stop(UserNotFound)
    else
      var p := tb[Profile(t, u)];
      if p.pending == "" then Stop(NoPendingChange)
      else if !ValidEmail(p.pending) then Stop(InvalidInput)
      else if p.pending == p.email then Stop(UserExists)
      else Proceed(p.email, p.pending)
  }

  /** The three-write transaction, with the order in which its failures are reported. */
  function CommitTx(tb: Table, t: string, u: string, current: string, pending: string): (r: (Outcome, Table)) {
    if Email(t, pending) in tb then (UserExists, tb)
    else if !IsProfile(tb, t, u) then (UserNotFound, tb)
    else if tb[Profile(t, u)].email != current || tb[Profile(t, u)].pending != pending then (InvalidToken, tb)
    else
      var p := tb[Profile(t, u)].(email := pending, pending := "");
      (Success, (tb - {Email(t, current)})[Email(t, pending) := EmailItem(u, t)][Profile(t, u) := p])
  }

  // ---- the invariant --------------------------------------------------------

  /** EMAIL#t#e names u exactly when the profile of (t, u) has the address e. */
  ghost predicate Bijection(tb: Table) {
    && (forall t, u :: Profile(t, u) in tb ==>
          && tb[Profile(t, u)].ProfileItem?
          && var e := tb[Profile(t, u)].email; Email(t, e) in tb && tb[Email(t, e)] == EmailItem(u, t))
    && (forall t, e :: Email(t, e) in tb ==>
          && tb[Email(t, e)].EmailItem?
          && tb[Email(t, e)].tenant == t
          && var u := tb[Email(t, e)].user; IsProfile(tb, t, u) && tb[Profile(t, u)].email == e)
  }

  lemma CreateKeepsBijection(tb: Table, t: string, u: string, profile: Item)
    requires Bijection(tb) && profile.ProfileItem?
    ensures Bijection(CreateTx(tb, t, u, profile).1)
  {
  }

  lemma ProfileUpdateKeepsBijection(tb: Table, t: string, u: string, p: Item)
    requires Bijection(tb) && IsProfile(tb, t, u)
    requires p.ProfileItem? && p.email == tb[Profile(t, u)].email
    ensures Bijection(tb[Profile(t, u) := p])
  {
  }

  lemma CommitKeepsBijection(tb: Table, t: string, u: string, current: string, pending: string)
    requires Bijection(tb) && pending != current
    ensures Bijection(CommitTx(tb, t, u, current, pending).1)
  {
    var (outcome, after) := CommitTx(tb, t, u, current, pending);
    if outcome == Success {
      forall t', u' | Profile(t', u') in after
        ensures
          && after[Profile(t', u')].ProfileItem?
          && var e := after[Profile(t', u')].email; Email(t', e) in after && after[Email(t', e)] == EmailItem(u', t')
      {
        assert Profile(t', u') in tb;
      }
      forall t', e | Email(t', e) in after
        ensures
          && after[Email(t', e)].EmailItem?
          && after[Email(t', e)].tenant == t'
          && var u' := after[Email(t', e)].user; IsProfile(after, t', u') && after[Profile(t', u')].email == e
      {
        if !(t' == t && e == pending) {
          assert Email(t', e) in tb;
        }
      }
    }
  }

  /** What a successful change does: the released item was this user's own, and nothing else moves. */
  lemma CommitEffect(tb: Table, t: string, u: string, current: string, pending: string)
    requires Bijection(tb) && pending != current
    requires CommitTx(tb, t, u, current, pending).0 == Success
    ensures var after := CommitTx(tb, t, u, current, pending).1;
            && tb[Profile(t, u)].pending == pending
            && tb[Email(t, current)] == EmailItem(u, t)
            && after[Profile(t, u)] == tb[Profile(t, u)].(email := pending, pending := "")
            && after[Email(t, pending)] == EmailItem(u, t)
            && Email(t, current) !in after
            && forall k :: k != Profile(t, u) && k != Email(t, current) && k != Email(t, pending) ==>
                 (k in after <==> k in tb) && (k in tb ==> after[k] == tb[k])
  {
  }

  /** Two users of a tenant never hold one address. */
  lemma AddressesAreUnique(tb: Table, t: string, u: string, u': string)
    requires Bijection(tb) && Profile(t, u) in tb && Profile(t, u') in tb
    requires tb[Profile(t, u)].email == tb[Profile(t, u')].email
    ensures u == u'
  {
    var e := tb[Profile(t, u)].email;
    assert tb[Email(t, e)] == EmailItem(u, t);
    assert tb[Email(t, e)] == EmailItem(u', t);
  }

  /** GetUserByEmail on a settled table: the address item, then the profile it names. */
  function UserByEmail(tb: Table, t: string, e: string): Option<string> {
    if Email(t, e) in tb && tb[Email(t, e)].EmailItem? && IsProfile(tb, t, tb[Email(t, e)].user)
    then Some(tb[Email(t, e)].user) else None
  }

  /** Login by address finds exactly the user whose profile carries it. */
  lemma LoginFindsTheHolder(tb: Table, t: string, e: string, u: string)
    requires Bijection(tb)
    ensures UserByEmail(tb, t, e) == Some(u) <==> IsProfile(tb, t, u) && tb[Profile(t, u)].email == e
  {
  }

  // ---- runs -------------------------------------------------------------------

  /**
   An ApplyEmailChange or a DeleteUser in flight. A DeleteUser's sweep has still to delete `left`
   of the user's profile and address item, and `others` of everything else it collected.
   */
  datatype Call =
    | Reader(tenant: string, user: string)
    | Committer(tenant: string, user: string, current: string, pending: string)
    | Sweeper(tenant: string, user: string, address: string, left: set<ItemKey>, others: set<ItemKey>)
    | Finished(outcome: Outcome)

  datatype State = State(multiTenant: bool, table: Table, calls: map<nat, Call>)

  datatype Step =
    | Create(tenant: string, user: string, address: string, pending: string, hash: string, exp: string, rest: int)
    | Issue(tenant: string, user: string, pending: string, hash: string, exp: string)
    | Clear(tenant: string, user: string)
    | Consume(tenant: string, user: string, hash: string, live: bool)
    | OtherProfileWrite(tenant: string, user: string, rest: int)
    | OtherPut(key: ItemKey, item: Item)
    | OtherDelete(key: ItemKey)
    | Begin(call: nat, tenant: string, user: string)
    | Read(call: nat)
    | Commit(call: nat, replyLost: bool)
    | DeleteRead(call: nat, tenant: string, user: string, others: set<ItemKey>)
    | Sweep(call: nat, key: ItemKey)
    | Fault(call: nat)

  predicate ValidUser(multiTenant: bool, t: string, u: string) {
    ValidTenant(multiTenant, t) && ValidId(u)
  }

  /** A step that is not enabled changes nothing; a `replyLost` commit takes effect and still reports a fault. */
  function Next(s: State, step: Step): State {
    match step
    case Create(t, u, address, pending, hash, exp, rest) =>
      var e := Normalize(address);
      if !ValidUser(s.multiTenant, t, u) || !ValidEmail(e) then s
      else s.(table := CreateTx(s.table, t, u, ProfileItem(e, pending, hash, exp, rest)).1)
    case Issue(t, u, pending, hash, exp) =>
      var e := Normalize(pending);
      if !ValidUser(s.multiTenant, t, u) || !ValidEmail(e) || hash == "" then s
      else s.(table := IssueTx(s.table, t, u, e, hash, exp).1)
    case Clear(t, u) =>
      if !ValidUser(s.multiTenant, t, u) then s else s.(table := ClearUpdate(s.table, t, u).1)
    case Consume(t, u, hash, live) => s.(table := ConsumeUpdate(s.table, t, u, hash, live).1)
    case OtherProfileWrite(t, u, rest) =>
      if !IsProfile(s.table, t, u) then s
      else s.(table := s.table[Profile(t, u) := s.table[Profile(t, u)].(rest := rest)])
    case OtherPut(k, item) => if k.Profile? || k.Email? || !ValidKey(k) then s else s.(table := s.table[k := item])
    case OtherDelete(k) => if k.Profile? || k.Email? then s else s.(table := s.table - {k})
    case Begin(c, t, u) =>
      if c in s.calls then s
      else s.(calls := s.calls[c := if ValidUser(s.multiTenant, t, u) then Reader(t, u) else Finished(InvalidInput)])
    case Read(c) =>
      if c !in s.calls || !s.calls[c].Reader? then s
      else
        var t, u := s.calls[c].tenant, s.calls[c].user;
        s.(calls := s.calls[c := match ReadForChange(s.table, t, u)
                                 case Stop(outcome) => Finished(outcome)
                                 case Proceed(current, pending) => Committer(t, u, current, pending)])
    case Commit(c, replyLost) =>
      if c !in s.calls || !s.calls[c].Committer? then s
      else
        var call := s.calls[c];
        var (outcome, after) := CommitTx(s.table, call.tenant, call.user, call.current, call.pending);
        s.(table := after, calls := s.calls[c := Finished(if replyLost then StoreFault else outcome)])
    case DeleteRead(c, t, u, others) =>
      if c in s.calls then s
      else if !ValidUser(s.multiTenant, t, u) then s.(calls := s.calls[c := Finished(InvalidInput)])
      else if !IsProfile(s.table, t, u) then s.(calls := s.calls[c := Finished(UserNotFound)])
      else
        var e := s.table[Profile(t, u)].email;
        s.(calls := s.calls[c := Sweeper(t, u, e, {Profile(t, u), Email(t, e)}, Beside(others))])
    case Sweep(c, k) =>
      if !Sweeping(s, c) || k !in s.calls[c].left + s.calls[c].others then s
      else s.(table := s.table - {k}, calls := s.calls[c := Swept(s.calls[c], k)])
    case Fault(c) =>
      if c !in s.calls || s.calls[c].Finished? then s
      else s.(calls := s.calls[c := Finished(StoreFault)])
  }

  function Run(s: State, steps: seq<Step>): State {
    if steps == [] then s else Next(Run(s, steps[..|steps| - 1]), steps[|steps| - 1])
  }

  /** What a sweep has left after one delete. */
  function Swept(call: Call, k: ItemKey): Call
    requires call.Sweeper?
  {
    var rest := call.(left := call.left - {k}, others := call.others - {k});
    if rest.left == {} && rest.others == {} then Finished(Success) else rest
  }

  /** Role assignments, membership, sessions, links, pointers, metadata: whatever a sweep deletes beside the pair. */
  predicate OtherKind(k: ItemKey) { !k.Profile? && !k.Email? }

  function Beside(others: set<ItemKey>): set<ItemKey> { set k | k in others && OtherKind(k) }

  predicate Sweeping(s: State, c: nat) { c in s.calls && s.calls[c].Sweeper? }

  function Pair(call: Call): set<ItemKey>
    requires call.Sweeper?
  {
    {Profile(call.tenant, call.user), Email(call.tenant, call.address)}
  }

  // ---- sweeps in flight ---------------------------------------------------------

  function Left(call: Call): set<ItemKey> { if call.Sweeper? then call.left else {} }

  /** The items that the sweeps among some calls are about to delete. */
  ghost function Held(calls: map<nat, Call>): set<ItemKey> { set c, k | c in calls && k in Left(calls[c]) :: k }

  ghost function Doomed(s: State): set<ItemKey> { Held(s.calls) }

  lemma HoldsWhatItHolds(calls: map<nat, Call>, c: nat, k: ItemKey)
    requires c in calls && k in Left(calls[c])
    ensures k in Held(calls)
  {
  }

  lemma HeldSplits(calls: map<nat, Call>, c: nat)
    ensures Held(calls) == Held(calls - {c}) + if c in calls then Left(calls[c]) else {}
  {
    var others := calls - {c};
    forall k | k in Held(calls) ensures k in Held(others) || (c in calls && k in Left(calls[c])) {
      var d :| d in calls && k in Left(calls[d]);
      if d != c {
        HoldsWhatItHolds(others, d, k);
      }
    }
    forall k | k in Held(others) ensures k in Held(calls) {
      var d :| d in others && k in Left(others[d]);
      HoldsWhatItHolds(calls, d, k);
    }
  }

  /** Moving one call changes what it holds, and nothing that another one holds. */
  lemma HeldMoves(calls: map<nat, Call>, c: nat, call: Call)
    ensures Held(calls[c := call]) == Held(calls - {c}) + Left(call)
  {
    assert calls[c := call] - {c} == calls - {c};
    HeldSplits(calls[c := call], c);
  }

  /** The table as it will be once the sweeps in flight have ended. */
  ghost function Settled(s: State): Table { s.table - Doomed(s) }

  /** What an abandoned sweep lets go: the items it had left that are there and that no other sweep holds. */
  ghost function Released(s: State, c: nat): set<ItemKey>
    requires Sweeping(s, c)
  {
    s.calls[c].left * s.table.Keys - Held(s.calls - {c})
  }

  /** All of a sweep's pair, and the two halves still match. */
  ghost predicate ReleasesThePair(s: State, c: nat)
    requires Sweeping(s, c)
  {
    var call := s.calls[c];
    && Released(s, c) == Pair(call)
    && IsProfile(s.table, call.tenant, call.user) && s.table[Profile(call.tenant, call.user)].email == call.address
    && s.table[Email(call.tenant, call.address)] == EmailItem(call.user, call.tenant)
  }

  /**
   DeleteUser is a read and a batch of separate deletes. What each call may do beside sweeps in
   flight: create both items where a sweep is about to delete or neither, move an address only
   between such places, not read a profile whose address has gone to somebody else meanwhile,
   and not let go of half a pair.
   */
  ghost predicate Harmless(s: State, step: Step) {
    match step
    case Create(t, u, address, pending, hash, exp, rest) =>
      var e := Normalize(address);
      ValidUser(s.multiTenant, t, u) && ValidEmail(e) && Profile(t, u) !in s.table && Email(t, e) !in s.table ==>
        (Profile(t, u) in Doomed(s) <==> Email(t, e) in Doomed(s))
    case Commit(c, _) =>
      c in s.calls && s.calls[c].Committer? ==>
        var call := s.calls[c];
        CommitTx(s.table, call.tenant, call.user, call.current, call.pending).0 == Success ==>
          HarmlessMove(s, call.tenant, call.user, call.current, call.pending)
    case DeleteRead(c, t, u, _) =>
      c !in s.calls && ValidUser(s.multiTenant, t, u) && IsProfile(s.table, t, u) ==>
        Profile(t, u) !in Doomed(s) || Email(t, s.table[Profile(t, u)].email) !in Settled(s)
    case Fault(c) => Sweeping(s, c) ==> Released(s, c) == {} || ReleasesThePair(s, c)
    case _ => true
  }

  /** A change of address in place, or among items that are about to be deleted. */
  ghost predicate HarmlessMove(s: State, t: string, u: string, current: string, pending: string) {
    if Profile(t, u) in Doomed(s) then Email(t, pending) in Doomed(s) && Email(t, current) !in Settled(s)
    else Email(t, pending) !in Doomed(s)
  }

  ghost predicate HarmlessRun(s: State, steps: seq<Step>) {
    forall i :: 0 <= i < |steps| ==> Harmless(Run(s, steps[..i]), steps[i])
  }

  ghost predicate CallInv(calls: map<nat, Call>) {
    forall c :: c in calls ==>
      && (calls[c].Committer? ==> calls[c].pending != calls[c].current && SEP !in calls[c].tenant)
      && (calls[c].Reader? ==> SEP !in calls[c].tenant)
  }

  ghost predicate KeysValid(tb: Table) { forall k :: k in tb ==> ValidKey(k) }

  /** Every profile and address item holds what its kind holds. */
  ghost predicate Typed(tb: Table) {
    forall k :: k in tb ==>
      (k.Profile? ==> tb[k].ProfileItem?) && (k.Email? ==> tb[k].EmailItem? && tb[k].tenant == k.tenant)
  }

  /** A sweep deletes its own user's pair, and items of other kinds. */
  ghost predicate SweepsTheirOwn(calls: map<nat, Call>) {
    forall c :: c in calls && calls[c].Sweeper? ==>
      calls[c].left <= Pair(calls[c]) && forall k :: k in calls[c].others ==> OtherKind(k)
  }

  /** What no step of any call ever breaks. */
  ghost predicate Sound(s: State) {
    KeysValid(s.table) && CallInv(s.calls) && Typed(s.table) && SweepsTheirOwn(s.calls)
  }

  ghost predicate Inv(s: State) { Sound(s) && Bijection(Settled(s)) }

  lemma ValidTenantHasNoSeparator(multiTenant: bool, t: string)
    ensures ValidTenant(multiTenant, t) ==> SEP !in t
  {
    if ValidTenant(multiTenant, t) {
      ValidIdHasNoSeparator(t);
    }
  }

  lemma StepKeepsTableKeysValid(s: State, step: Step)
    requires KeysValid(s.table) && CallInv(s.calls)
    ensures KeysValid(Next(s, step).table)
  {
    match step
    case Create(t, _, _, _, _, _, _) => ValidTenantHasNoSeparator(s.multiTenant, t);
    case _ =>
  }

  lemma StepKeepsCallInv(s: State, step: Step)
    requires CallInv(s.calls)
    ensures CallInv(Next(s, step).calls)
  {
    match step
    case Begin(_, t, _) => ValidTenantHasNoSeparator(s.multiTenant, t);
    case _ =>
  }

  lemma StepKeepsKeysValid(s: State, step: Step)
    requires KeysValid(s.table) && CallInv(s.calls)
    ensures KeysValid(Next(s, step).table) && CallInv(Next(s, step).calls)
  {
    StepKeepsTableKeysValid(s, step);
    StepKeepsCallInv(s, step);
  }

  lemma StepKeepsTyped(s: State, step: Step)
    requires Typed(s.table)
    ensures Typed(Next(s, step).table)
  {
  }

  lemma StepKeepsSweepsTheirOwn(s: State, step: Step)
    requires SweepsTheirOwn(s.calls)
    ensures SweepsTheirOwn(Next(s, step).calls)
  {
  }

  lemma StepKeepsSound(s: State, step: Step)
    requires Sound(s)
    ensures Sound(Next(s, step))
  {
    StepKeepsKeysValid(s, step);
    StepKeepsTyped(s, step);
    StepKeepsSweepsTheirOwn(s, step);
  }

  /** Only profiles and address items are ever about to be deleted in a pair. */
  lemma OthersAreNotDoomed(s: State, k: ItemKey)
    requires SweepsTheirOwn(s.calls) && OtherKind(k)
    ensures k !in Doomed(s)
  {
  }

  // ---- what each step does to the bijection ---------------------------------------

  /** A bijection is a matter of profiles and address items alone. */
  lemma SamePairs(tb: Table, tb': Table)
    requires forall k: ItemKey :: !OtherKind(k) ==> (k in tb' <==> k in tb) && (k in tb ==> tb'[k] == tb[k])
    ensures Bijection(tb') <==> Bijection(tb)
  {
  }

  /** The address item of a profile nobody is about to delete is not about to be deleted either. */
  lemma UnsweptIsNotDoomed(s: State, t: string, u: string)
    requires Bijection(Settled(s)) && Profile(t, u) !in Doomed(s) && IsProfile(s.table, t, u)
    ensures Email(t, s.table[Profile(t, u)].email) !in Doomed(s)
    ensures Email(t, s.table[Profile(t, u)].email) in s.table
    ensures s.table[Email(t, s.table[Profile(t, u)].email)] == EmailItem(u, t)
  {
    assert Profile(t, u) in Settled(s);
  }

  lemma CreateIff(s: State, t: string, u: string, profile: Item)
    requires Inv(s) && profile.ProfileItem? && CreateTx(s.table, t, u, profile).0 == Success
    ensures Bijection(Settled(s.(table := CreateTx(s.table, t, u, profile).1))) <==>
            (Profile(t, u) in Doomed(s) <==> Email(t, profile.email) in Doomed(s))
  {
    var p, e := Profile(t, u), Email(t, profile.email);
    var tb, after := Settled(s), Settled(s.(table := CreateTx(s.table, t, u, profile).1));
    OthersAreNotDoomed(s, Member(t, u));
    if p !in Doomed(s) && e !in Doomed(s) {
      assert after == CreateTx(tb, t, u, profile).1;
      CreateKeepsBijection(tb, t, u, profile);
    } else if p in Doomed(s) && e in Doomed(s) {
      SamePairs(tb, after);
    } else if p in Doomed(s) {
      assert e in after && p !in after;
    } else {
      assert p in after && e !in after;
    }
  }

  /** A write that keeps the address of one profile, whether or not that profile is being swept. */
  lemma ProfileWriteKeepsInv(s: State, t: string, u: string, p: Item)
    requires Inv(s) && IsProfile(s.table, t, u) && p.ProfileItem? && p.email == s.table[Profile(t, u)].email
    ensures Bijection(Settled(s.(table := s.table[Profile(t, u) := p])))
  {
    var s' := s.(table := s.table[Profile(t, u) := p]);
    if Profile(t, u) in Doomed(s) {
      assert Settled(s') == Settled(s);
    } else {
      assert Settled(s') == Settled(s)[Profile(t, u) := p];
      ProfileUpdateKeepsBijection(Settled(s), t, u, p);
    }
  }

  lemma TokenStepKeepsInv(s: State, step: Step)
    requires Inv(s) && (step.Issue? || step.Clear? || step.Consume? || step.OtherProfileWrite?)
    ensures Bijection(Settled(Next(s, step)))
  {
    var s', t, u := Next(s, step), step.tenant, step.user;
    if IsProfile(s.table, t, u) {
      var p := s'.table[Profile(t, u)];
      ProfileWriteKeepsInv(s, t, u, p);
      SamePairs(Settled(s.(table := s.table[Profile(t, u) := p])), Settled(s'));
    }
  }

  lemma CommitIff(s: State, t: string, u: string, current: string, pending: string)
    requires Inv(s) && pending != current && CommitTx(s.table, t, u, current, pending).0 == Success
    ensures Bijection(Settled(s.(table := CommitTx(s.table, t, u, current, pending).1))) <==> HarmlessMove(s, t, u, current, pending)
  {
    var tb, after := Settled(s), Settled(s.(table := CommitTx(s.table, t, u, current, pending).1));
    var p, freed, next := Profile(t, u), Email(t, current), Email(t, pending);
    if p !in Doomed(s) {
      UnsweptIsNotDoomed(s, t, u);
      if next in Doomed(s) {
        assert p in after && after[p].email == pending && next !in after;
      } else {
        assert after == CommitTx(tb, t, u, current, pending).1;
        CommitKeepsBijection(tb, t, u, current, pending);
      }
    } else if next !in Doomed(s) {
      assert next in after && after[next] == EmailItem(u, t) && p !in after;
    } else if freed in tb {
      ItemRemovalBreaks(tb, t, current);
      assert after == tb - {freed};
    } else {
      assert after == tb;
    }
  }

  /** An address item alone cannot go. */
  lemma ItemRemovalBreaks(tb: Table, t: string, e: string)
    requires Bijection(tb) && Email(t, e) in tb
    ensures !Bijection(tb - {Email(t, e)})
  {
    var u := tb[Email(t, e)].user;
    var after := tb - {Email(t, e)};
    assert Profile(t, u) in after && after[Profile(t, u)].email == e;
  }

  lemma PairRemovalKeepsBijection(tb: Table, t: string, u: string)
    requires Bijection(tb) && IsProfile(tb, t, u)
    ensures Bijection(tb - {Profile(t, u), Email(t, tb[Profile(t, u)].email)})
  {
  }

  lemma StartSweepIff(s: State, c: nat, t: string, u: string, others: set<ItemKey>)
    requires Inv(s) && c !in s.calls && IsProfile(s.table, t, u)
    ensures var e := s.table[Profile(t, u)].email;
            Bijection(Settled(s.(calls := s.calls[c := Sweeper(t, u, e, {Profile(t, u), Email(t, e)}, others)]))) <==>
            Profile(t, u) !in Doomed(s) || Email(t, e) !in Settled(s)
  {
    var e := s.table[Profile(t, u)].email;
    var pair := {Profile(t, u), Email(t, e)};
    var s' := s.(calls := s.calls[c := Sweeper(t, u, e, pair, others)]);
    HeldMoves(s.calls, c, s'.calls[c]);
    HeldSplits(s.calls, c);
    assert Settled(s') == Settled(s) - pair;
    if Profile(t, u) !in Doomed(s) {
      PairRemovalKeepsBijection(Settled(s), t, u);
    } else if Email(t, e) in Settled(s) {
      ItemRemovalBreaks(Settled(s), t, e);
      assert Settled(s') == Settled(s) - {Email(t, e)};
    } else {
      assert Settled(s') == Settled(s);
    }
  }

  /** Whatever else is in flight, a delete of what a sweep holds is what the settled table already shows. */
  lemma SweepKeepsInv(s: State, c: nat, k: ItemKey)
    requires Inv(s) && Sweeping(s, c) && k in s.calls[c].left + s.calls[c].others
    ensures Bijection(Settled(Next(s, Sweep(c, k))))
  {
    var s' := Next(s, Sweep(c, k));
    HeldMoves(s.calls, c, s'.calls[c]);
    HeldSplits(s.calls, c);
    assert Left(s'.calls[c]) == s.calls[c].left - {k};
    assert !OtherKind(k) ==> k in s.calls[c].left;
    SamePairs(Settled(s), Settled(s'));
  }

  /** A profile alone cannot appear. */
  lemma ProfileAloneBreaks(tb: Table, t: string, u: string, p: Item)
    requires Bijection(tb) && Profile(t, u) !in tb && p.ProfileItem?
    ensures !Bijection(tb[Profile(t, u) := p])
  {
    assert Profile(t, u) in tb[Profile(t, u) := p];
    if Email(t, p.email) in tb {
      assert Profile(t, tb[Email(t, p.email)].user) in tb;
    }
  }

  /** Nor can an address item. */
  lemma ItemAloneBreaks(tb: Table, t: string, e: string, item: Item)
    requires Bijection(tb) && Email(t, e) !in tb
    ensures !Bijection(tb[Email(t, e) := item])
  {
    assert Email(t, e) in tb[Email(t, e) := item];
    if item.EmailItem? && Profile(t, item.user) in tb {
      assert Email(t, tb[Profile(t, item.user)].email) in tb;
    }
  }

  /** And of the two together, only a pair that matches. */
  lemma TogetherIff(tb: Table, t: string, u: string, e: string, p: Item, item: Item)
    requires Bijection(tb) && Profile(t, u) !in tb && Email(t, e) !in tb && p.ProfileItem?
    ensures Bijection(tb[Profile(t, u) := p][Email(t, e) := item]) <==> p.email == e && item == EmailItem(u, t)
  {
    assert Profile(t, u) in tb[Profile(t, u) := p][Email(t, e) := item];
    if Email(t, p.email) in tb {
      assert Profile(t, tb[Email(t, p.email)].user) in tb;
    }
  }

  /** Abandoning a sweep gives back what it releases. */
  lemma ReleasedReturns(s: State, c: nat)
    requires Sound(s) && Sweeping(s, c)
    ensures Released(s, c) <= Pair(s.calls[c]) && Released(s, c) !! Settled(s).Keys
    ensures Settled(Next(s, Fault(c))).Keys == Settled(s).Keys + Released(s, c)
    ensures Next(s, Fault(c)).table == s.table
  {
    HeldMoves(s.calls, c, Finished(StoreFault));
    HeldSplits(s.calls, c);
  }

  lemma AbandonIff(s: State, c: nat)
    requires Inv(s) && Sweeping(s, c)
    ensures Bijection(Settled(Next(s, Fault(c)))) <==> Released(s, c) == {} || ReleasesThePair(s, c)
  {
    var s', tb, free := Next(s, Fault(c)), Settled(s), Released(s, c);
    var p, e := Profile(s.calls[c].tenant, s.calls[c].user), Email(s.calls[c].tenant, s.calls[c].address);
    ReleasedReturns(s, c);
    if p in free && e in free {
      assert Settled(s') == tb[p := s.table[p]][e := s.table[e]];
      TogetherIff(tb, p.tenant, p.user, e.address, s.table[p], s.table[e]);
    } else if p in free {
      assert Settled(s') == tb[p := s.table[p]];
      ProfileAloneBreaks(tb, p.tenant, p.user, s.table[p]);
    } else if e in free {
      assert Settled(s') == tb[e := s.table[e]];
      ItemAloneBreaks(tb, e.tenant, e.address, s.table[e]);
    } else {
      assert Settled(s') == tb;
    }
  }

  /** Moving the program counter of a call that is not, and does not become, a sweep. */
  lemma CounterKeepsSettled(s: State, c: nat, call: Call)
    requires !Sweeping(s, c) && !call.Sweeper?
    ensures Settled(s.(calls := s.calls[c := call])) == Settled(s)
  {
    HeldMoves(s.calls, c, call);
    HeldSplits(s.calls, c);
  }

  lemma CommitStepIff(s: State, c: nat, replyLost: bool)
    requires Inv(s)
    ensures Bijection(Settled(Next(s, Commit(c, replyLost)))) <==> Harmless(s, Commit(c, replyLost))
  {
    if c in s.calls && s.calls[c].Committer? {
      var s', call := Next(s, Commit(c, replyLost)), s.calls[c];
      CounterKeepsSettled(s.(table := s'.table), c, s'.calls[c]);
      if CommitTx(s.table, call.tenant, call.user, call.current, call.pending).0 == Success {
        CommitIff(s, call.tenant, call.user, call.current, call.pending);
      } else {
        assert s'.table == s.table;
      }
    }
  }

  lemma DeleteReadIff(s: State, c: nat, t: string, u: string, others: set<ItemKey>)
    requires Inv(s)
    ensures Bijection(Settled(Next(s, DeleteRead(c, t, u, others)))) <==> Harmless(s, DeleteRead(c, t, u, others))
  {
    if c !in s.calls {
      if ValidUser(s.multiTenant, t, u) && IsProfile(s.table, t, u) {
        StartSweepIff(s, c, t, u, Beside(others));
      } else {
        CounterKeepsSettled(s, c, Next(s, DeleteRead(c, t, u, others)).calls[c]);
      }
    }
  }

  lemma FaultIff(s: State, c: nat)
    requires Inv(s)
    ensures Bijection(Settled(Next(s, Fault(c)))) <==> Harmless(s, Fault(c))
  {
    if Sweeping(s, c) {
      AbandonIff(s, c);
    } else if c in s.calls {
      CounterKeepsSettled(s, c, Finished(StoreFault));
    }
  }

  lemma CreateStepIff(s: State, step: Step)
    requires Inv(s) && step.Create?
    ensures Bijection(Settled(Next(s, step))) <==> Harmless(s, step)
  {
    var e := Normalize(step.address);
    var profile := ProfileItem(e, step.pending, step.hash, step.exp, step.rest);
    if ValidUser(s.multiTenant, step.tenant, step.user) && ValidEmail(e) && CreateTx(s.table, step.tenant, step.user, profile).0 == Success {
      CreateIff(s, step.tenant, step.user, profile);
    }
  }

  lemma QuietStepKeepsBijection(s: State, step: Step)
    requires Inv(s) && (step.OtherPut? || step.OtherDelete? || step.Begin? || step.Read? || step.Sweep?)
    ensures Bijection(Settled(Next(s, step)))
  {
    var s' := Next(s, step);
    match step
    case Sweep(c, k) =>
      if Sweeping(s, c) && k in s.calls[c].left + s.calls[c].others { SweepKeepsInv(s, c, k); }
    case Begin(c, _, _) =>
      if c !in s.calls { CounterKeepsSettled(s, c, s'.calls[c]); }
    case Read(c) =>
      if c in s.calls && s.calls[c].Reader? { CounterKeepsSettled(s, c, s'.calls[c]); }
    case _ => SamePairs(Settled(s), Settled(s'));
  }

  /**
   What a step does to addresses: profiles and address items are still in step, up to what
   sweeps are about to delete, exactly when the step is harmless; everything else always holds.
   */
  lemma NextKeepsInvIff(s: State, step: Step)
    requires Inv(s)
    ensures Sound(Next(s, step))
    ensures Bijection(Settled(Next(s, step))) <==> Harmless(s, step)
  {
    StepKeepsSound(s, step);
    match step
    case Create(_, _, _, _, _, _, _) => CreateStepIff(s, step);
    case Commit(c, replyLost) => CommitStepIff(s, c, replyLost);
    case DeleteRead(c, t, u, others) => DeleteReadIff(s, c, t, u, others);
    case Fault(c) => FaultIff(s, c);
    case Issue(_, _, _, _, _) => TokenStepKeepsInv(s, step);
    case Clear(_, _) => TokenStepKeepsInv(s, step);
    case Consume(_, _, _, _) => TokenStepKeepsInv(s, step);
    case OtherProfileWrite(_, _, _) => TokenStepKeepsInv(s, step);
    case _ => QuietStepKeepsBijection(s, step);
  }

  // ---- the results over whole runs ----------------------------------------------

  lemma HarmlessStep(s: State, step: Step)
    requires Inv(s) && Harmless(s, step)
    ensures Inv(Next(s, step))
  {
    NextKeepsInvIff(s, step);
  }

  lemma {:induction false} HarmlessRunKeepsInv(s: State, steps: seq<Step>)
    requires Inv(s) && HarmlessRun(s, steps)
    ensures Inv(Run(s, steps))
    decreases |steps|
  {
    if steps != [] {
      var n := |steps| - 1;
      HarmlessPrefix(s, steps, n);
      HarmlessRunKeepsInv(s, steps[..n]);
      HarmlessStep(Run(s, steps[..n]), steps[n]);
    }
  }

  /**
   In every interleaving address items and profiles stay in exact bijection, up to what a
   DeleteUser is about to delete, and outright whenever no DeleteUser is in flight.
   */
  lemma EveryRunKeepsInv(s: State, steps: seq<Step>)
    requires Inv(s) && HarmlessRun(s, steps)
    ensures Inv(Run(s, steps))
    ensures (forall c :: !Sweeping(Run(s, steps), c)) ==> Bijection(Run(s, steps).table)
  {
    HarmlessRunKeepsInv(s, steps);
    QuietIsInOrder(Run(s, steps));
  }

  lemma QuietIsInOrder(s: State)
    requires Inv(s)
    ensures (forall c :: !Sweeping(s, c)) ==> Bijection(s.table)
  {
    if forall c :: !Sweeping(s, c) {
      NothingIsDoomed(s);
    }
  }

  lemma NothingIsDoomed(s: State)
    requires forall c :: !Sweeping(s, c)
    ensures Doomed(s) == {} && Settled(s) == s.table
  {
    forall c | c in s.calls ensures Left(s.calls[c]) == {} {
      assert !Sweeping(s, c);
    }
    assert Doomed(s) == {};
  }

  lemma HarmlessPrefix(s: State, steps: seq<Step>, n: nat)
    requires HarmlessRun(s, steps) && n <= |steps|
    ensures HarmlessRun(s, steps[..n])
  {
    forall i | 0 <= i < n ensures Harmless(Run(s, steps[..n][..i]), steps[..n][i]) {
      assert steps[..n][..i] == steps[..i];
    }
  }

  predicate NoDeletes(steps: seq<Step>) { forall i :: 0 <= i < |steps| ==> !steps[i].DeleteRead? }

  lemma {:induction false} NoDeletesNoSweeps(s: State, steps: seq<Step>)
    requires NoDeletes(steps) && forall c :: !Sweeping(s, c)
    ensures forall c :: !Sweeping(Run(s, steps), c)
    decreases |steps|
  {
    if steps != [] {
      NoDeletesNoSweeps(s, steps[..|steps| - 1]);
      var before := Run(s, steps[..|steps| - 1]);
      var after := Next(before, steps[|steps| - 1]);
      forall c ensures !Sweeping(after, c) {
        assert !Sweeping(before, c);
      }
    }
  }

  /** Without DeleteUser the bijection holds outright, at every moment of every run. */
  lemma EveryRunKeepsBijection(s: State, steps: seq<Step>)
    requires Inv(s) && NoDeletes(steps) && forall c :: !Sweeping(s, c)
    ensures Bijection(Run(s, steps).table)
  {
    forall i | 0 <= i < |steps| ensures Harmless(Run(s, steps[..i]), steps[i]) {
      NoDeletesNoSweeps(s, steps[..i]);
      NothingIsDoomed(Run(s, steps[..i]));
    }
    NoDeletesNoSweeps(s, steps);
    EveryRunKeepsInv(s, steps);
  }

  /** And it holds at every moment of a run, up to what sweeps are about to delete, exactly when every step of the run is harmless. */
  lemma InvThroughoutIff(s: State, steps: seq<Step>)
    requires Inv(s)
    ensures (forall i :: 0 <= i <= |steps| ==> Bijection(Settled(Run(s, steps[..i])))) <==> HarmlessRun(s, steps)
  {
    if HarmlessRun(s, steps) {
      forall i | 0 <= i <= |steps| ensures Bijection(Settled(Run(s, steps[..i]))) {
        HarmlessPrefix(s, steps, i);
        EveryRunKeepsInv(s, steps[..i]);
      }
    }
    if forall i :: 0 <= i <= |steps| ==> Bijection(Settled(Run(s, steps[..i]))) {
      forall i | 0 <= i < |steps| ensures Harmless(Run(s, steps[..i]), steps[i]) {
        StepBetween(s, steps, i);
      }
    }
  }

  lemma StepBetween(s: State, steps: seq<Step>, i: nat)
    requires i < |steps| && Sound(s)
    requires Bijection(Settled(Run(s, steps[..i]))) && Bijection(Settled(Run(s, steps[..i + 1])))
    ensures Harmless(Run(s, steps[..i]), steps[i])
  {
    EveryRunIsSound(s, steps[..i]);
    assert steps[..i + 1] == steps[..i] + [steps[i]];
    RunSnoc(s, steps[..i], steps[i]);
    NextKeepsInvIff(Run(s, steps[..i]), steps[i]);
  }

  lemma {:induction false} EveryRunIsSound(s: State, steps: seq<Step>)
    requires Sound(s)
    ensures Sound(Run(s, steps))
    decreases |steps|
  {
    if steps != [] {
      EveryRunIsSound(s, steps[..|steps| - 1]);
      StepKeepsSound(Run(s, steps[..|steps| - 1]), steps[|steps| - 1]);
    }
  }

  /** Whatever runs, no key with an unvalidated segment is ever written. */
  lemma {:induction false} EveryRunKeepsKeysValid(s: State, steps: seq<Step>)
    requires KeysValid(s.table) && CallInv(s.calls)
    ensures KeysValid(Run(s, steps).table) && CallInv(Run(s, steps).calls)
    decreases |steps|
  {
    if steps != [] {
      EveryRunKeepsKeysValid(s, steps[..|steps| - 1]);
      StepKeepsKeysValid(Run(s, steps[..|steps| - 1]), steps[|steps| - 1]);
    }
  }

  /** In any reachable table the key strings of two items coincide only for one item. */
  lemma ReachableAddressesAreUnambiguous(s: State, steps: seq<Step>, k: ItemKey, k': ItemKey)
    requires KeysValid(s.table) && CallInv(s.calls)
    requires k in Run(s, steps).table && k' in Run(s, steps).table
    requires PartitionKey(k) == PartitionKey(k') && SortKey(k) == SortKey(k')
    ensures k == k'
  {
    EveryRunKeepsKeysValid(s, steps);
    KeysJointlyInjective(k, k');
  }

  /**
   Whenever a call of a run succeeds, whatever ran since its read, it applied the address
   pending at that moment, and no lookup but those of its two addresses changed.
   */
  lemma ChangeAppliesOnlyThePendingAddress(s: State, steps: seq<Step>, c: nat)
    requires KeysValid(s.table) && CallInv(s.calls)
    requires var before := Run(s, steps);
             && c in before.calls && before.calls[c].Committer?
             && Next(before, Commit(c, false)).calls[c] == Finished(Success)
    ensures var before := Run(s, steps);
            var after := Next(before, Commit(c, false)).table;
            var call := before.calls[c];
            var (t, u) := (call.tenant, call.user);
            && IsProfile(before.table, t, u) && before.table[Profile(t, u)].pending == call.pending
            && UserByEmail(after, t, call.pending) == Some(u)
            && UserByEmail(after, t, call.current) == None
            && after[Profile(t, u)] == before.table[Profile(t, u)].(email := call.pending, pending := "")
            && forall t', e :: (t', e) != (t, call.pending) && (t', e) != (t, call.current) ==>
                 UserByEmail(after, t', e) == UserByEmail(before.table, t', e)
  {
    EveryRunKeepsKeysValid(s, steps);
    var before := Run(s, steps);
    var call := before.calls[c];
    forall t', e | (t', e) != (call.tenant, call.pending) && (t', e) != (call.tenant, call.current)
      ensures UserByEmail(Next(before, Commit(c, false)).table, t', e) == UserByEmail(before.table, t', e)
    {
      CommitSparesOthers(before.table, call.tenant, call.user, call.current, call.pending, t', e);
    }
  }

  /** `v` carries the address, and no sweep is about to delete the profile. */
  ghost predicate Holder(s: State, t: string, v: string, e: string) {
    IsProfile(s.table, t, v) && s.table[Profile(t, v)].email == e && Profile(t, v) !in Doomed(s)
  }

  /**
   The address item a successful commit deletes unconditionally is the user's own unless the
   profile is being swept; then it is another holder's exactly when no sweep is about to delete it.
   */
  lemma ChangeTakesAnAddressIff(s: State, steps: seq<Step>, c: nat)
    requires Inv(s) && HarmlessRun(s, steps)
    requires var before := Run(s, steps);
             && c in before.calls && before.calls[c].Committer?
             && Next(before, Commit(c, false)).calls[c] == Finished(Success)
    ensures var before := Run(s, steps);
            var (t, u, current) := (before.calls[c].tenant, before.calls[c].user, before.calls[c].current);
            && (Profile(t, u) !in Doomed(before) ==> Email(t, current) in before.table && before.table[Email(t, current)] == EmailItem(u, t))
            && ((exists v :: v != u && Holder(before, t, v, current)) <==>
                Profile(t, u) in Doomed(before) && Email(t, current) in Settled(before))
  {
    EveryRunKeepsInv(s, steps);
    CommittedProfile(Run(s, steps), c);
    TakesAnAddressIff(Run(s, steps), Run(s, steps).calls[c].tenant, Run(s, steps).calls[c].user);
  }

  lemma CommittedProfile(s: State, c: nat)
    requires c in s.calls && s.calls[c].Committer? && Next(s, Commit(c, false)).calls[c] == Finished(Success)
    ensures IsProfile(s.table, s.calls[c].tenant, s.calls[c].user)
    ensures s.table[Profile(s.calls[c].tenant, s.calls[c].user)].email == s.calls[c].current
  {
  }

  lemma TakesAnAddressIff(s: State, t: string, u: string)
    requires Inv(s) && IsProfile(s.table, t, u)
    ensures var e := s.table[Profile(t, u)].email;
            && (Profile(t, u) !in Doomed(s) ==> Email(t, e) in s.table && s.table[Email(t, e)] == EmailItem(u, t))
            && ((exists v :: v != u && Holder(s, t, v, e)) <==> Profile(t, u) in Doomed(s) && Email(t, e) in Settled(s))
  {
    var e := s.table[Profile(t, u)].email;
    if Profile(t, u) !in Doomed(s) {
      UnsweptIsNotDoomed(s, t, u);
    } else if Email(t, e) in Settled(s) {
      assert Holder(s, t, Settled(s)[Email(t, e)].user, e);
    }
    if v :| v != u && Holder(s, t, v, e) {
      UnsweptIsNotDoomed(s, t, v);
    }
  }

  lemma CommitSparesOthers(tb: Table, t: string, u: string, current: string, pending: string, t': string, e: string)
    requires (t', e) != (t, pending) && (t', e) != (t, current)
    ensures UserByEmail(CommitTx(tb, t, u, current, pending).1, t', e) == UserByEmail(tb, t', e)
  {
  }

  /** Overlapping or not, a sweep never holds the address item of a profile that no sweep is about to delete. */
  lemma DeleteTakesNoHoldersAddress(s: State, steps: seq<Step>, c: nat, t: string, e: string, v: string)
    requires Inv(s) && HarmlessRun(s, steps)
    requires Sweeping(Run(s, steps), c) && Email(t, e) in Run(s, steps).calls[c].left
    ensures t == Run(s, steps).calls[c].tenant && !Holder(Run(s, steps), t, v, e)
  {
    EveryRunKeepsInv(s, steps);
    var now := Run(s, steps);
    HeldSplits(now.calls, c);
    if Holder(now, t, v, e) {
      UnsweptIsNotDoomed(now, t, v);
    }
  }

  /**
   A change from token to commit: the emailed token works once, the address issued with it is
   the one applied, and the old one is free again.
   */
  lemma IssuedChangeApplies(tb: Table, t: string, u: string, pending: string, hash: string, exp: string)
    requires Bijection(tb) && IsProfile(tb, t, u) && hash != "" && ValidEmail(pending)
    requires IssueTx(tb, t, u, pending, hash, exp).0 == Success
    requires Email(t, pending) !in tb
    ensures var issued := IssueTx(tb, t, u, pending, hash, exp).1;
            var current := tb[Profile(t, u)].email;
            var (consumed, ready) := ConsumeUpdate(issued, t, u, hash, true);
            && issued[Token(TokenFamily.EmailChange, hash)] == PointerItem(u, t)
            && consumed == Success && ConsumeUpdate(ready, t, u, hash, true).0 == InvalidToken
            && ReadForChange(ready, t, u) == Proceed(current, pending)
            && var (outcome, after) := CommitTx(ready, t, u, current, pending);
               && outcome == Success && ReadForChange(after, t, u) == Stop(NoPendingChange)
               && UserByEmail(after, t, pending) == Some(u) && UserByEmail(after, t, current) == None
  {
    assert pending != tb[Profile(t, u)].email;
  }

  /** A cleared change is gone: its token is dead and nothing is pending. */
  lemma ClearedChangeIsGone(tb: Table, t: string, u: string, hash: string)
    requires IsProfile(tb, t, u)
    ensures var after := ClearUpdate(tb, t, u).1;
            ConsumeUpdate(after, t, u, hash, true).0 == InvalidToken && ReadForChange(after, t, u) == Stop(NoPendingChange)
  {
  }

  /** A refused commit changes nothing, and each refusal has its own exact cause. */
  lemma RefusalsAreExact(tb: Table, t: string, u: string, current: string, pending: string)
    requires Bijection(tb) && pending != current
    ensures var (outcome, after) := CommitTx(tb, t, u, current, pending);
            && (outcome != Success ==> after == tb)
            && (outcome == UserExists <==> exists v :: IsProfile(tb, t, v) && tb[Profile(t, v)].email == pending)
            && (outcome == UserNotFound <==> outcome != UserExists && Profile(t, u) !in tb)
            && (outcome == Success <==>
                  && IsProfile(tb, t, u)
                  && tb[Profile(t, u)].email == current && tb[Profile(t, u)].pending == pending
                  && !exists v :: IsProfile(tb, t, v) && tb[Profile(t, v)].email == pending)
            && (outcome == InvalidToken <==> outcome !in {UserExists, UserNotFound, Success})
  {
    if Email(t, pending) in tb {
      var v := tb[Email(t, pending)].user;
      assert IsProfile(tb, t, v) && tb[Profile(t, v)].email == pending;
    }
  }

  // ---- why the hypotheses on DeleteUser are needed --------------------------------

  /** One user of the single-tenant deployment, with a pending change from "a" to "b". */
  function OneUser(): State {
    var profile := ProfileItem("a", "b", "", "", 0);
    State(false, map[Profile("", "u") := profile, Email("", "a") := EmailItem("u", "")], map[])
  }

  lemma OneUserIsSettled()
    ensures Inv(OneUser())
  {
    NothingIsDoomed(OneUser());
  }

  lemma RunSnoc(s: State, steps: seq<Step>, step: Step)
    ensures Run(s, steps + [step]) == Next(Run(s, steps), step)
  {
    assert (steps + [step])[..|steps|] == steps;
  }

  lemma PlainNames()
    ensures Normalize("a") == "a" && ValidEmail("a") && ValidEmail("b")
    ensures ValidUser(false, "", "u") && ValidUser(false, "", "v") && ValidUser(false, "", "w")
  {
    assert TrimLeft("a") == "a" && TrimRight("a") == "a";
    assert Lower("a") == "a";
  }

  /** DeleteUser reads "a"; the change to "b" commits; "v" registers "a". */
  function DeleteOverChange(): seq<Step> {
    [Begin(0, "", "u")] + [Read(0)] + [DeleteRead(1, "", "u", {})] + [Commit(0, false)] + [Create("", "v", "a", "", "", "", 0)]
  }

  lemma ChangeHasRead()
    ensures Run(OneUser(), [Begin(0, "", "u")] + [Read(0)]) == OneUser().(calls := map[0 := Committer("", "u", "a", "b")])
  {
    PlainNames();
    var p := [Begin(0, "", "u")];
    RunSnoc(OneUser(), [], Begin(0, "", "u"));
    assert [] + p == p;
    assert Run(OneUser(), p) == OneUser().(calls := map[0 := Reader("", "u")]);
    RunSnoc(OneUser(), p, Read(0));
  }

  lemma DeletionHasRead()
    ensures Run(OneUser(), [Begin(0, "", "u")] + [Read(0)] + [DeleteRead(1, "", "u", {})]) ==
            OneUser().(calls := map[0 := Committer("", "u", "a", "b"), 1 := Sweeper("", "u", "a", {Profile("", "u"), Email("", "a")}, {})])
  {
    PlainNames();
    ChangeHasRead();
    RunSnoc(OneUser(), [Begin(0, "", "u")] + [Read(0)], DeleteRead(1, "", "u", {}));
    assert Beside({}) == {};
  }

  lemma AfterDeleteOverChange()
    ensures var now := Run(OneUser(), DeleteOverChange());
            && !now.multiTenant
            && 1 in now.calls && now.calls[1] == Sweeper("", "u", "a", {Profile("", "u"), Email("", "a")}, {})
            && IsProfile(now.table, "", "v") && now.table[Profile("", "v")].email == "a"
            && Profile("", "w") !in now.table
  {
    PlainNames();
    DeletionHasRead();
    var p := [Begin(0, "", "u")] + [Read(0)] + [DeleteRead(1, "", "u", {})];
    RunSnoc(OneUser(), p, Commit(0, false));
    RunSnoc(OneUser(), p + [Commit(0, false)], Create("", "v", "a", "", "", "", 0));
  }

  /**
   The sweep then deletes v's address item, and a third user registers the address v still holds:
   overlapping the two calls costs uniqueness.
   */
  lemma OverlappingDeleteSharesAnAddress()
    ensures var tb := Run(OneUser(), DeleteOverChange() + [Sweep(1, Email("", "a"))] + [Create("", "w", "a", "", "", "", 0)]).table;
            IsProfile(tb, "", "v") && IsProfile(tb, "", "w")
            && tb[Profile("", "v")].email == tb[Profile("", "w")].email
  {
    PlainNames();
    AfterDeleteOverChange();
    RunSnoc(OneUser(), DeleteOverChange(), Sweep(1, Email("", "a")));
    RunSnoc(OneUser(), DeleteOverChange() + [Sweep(1, Email("", "a"))], Create("", "w", "a", "", "", "", 0));
  }

  /** Two deletions of u overlap; the first one ends, and "v" registers the address it freed. */
  function DeleteOverDelete(): seq<Step> {
    [DeleteRead(0, "", "u", {})] + [DeleteRead(1, "", "u", {})] + [Sweep(0, Profile("", "u"))] + [Sweep(0, Email("", "a"))]
  }

  const PAIR_OF_U: set<ItemKey> := {Profile("", "u"), Email("", "a")}

  lemma TwoDeletionsHaveRead()
    ensures Run(OneUser(), [DeleteRead(0, "", "u", {})] + [DeleteRead(1, "", "u", {})]) ==
            OneUser().(calls := map[0 := Sweeper("", "u", "a", PAIR_OF_U, {}), 1 := Sweeper("", "u", "a", PAIR_OF_U, {})])
  {
    PlainNames();
    var p := [DeleteRead(0, "", "u", {})];
    assert Beside({}) == {};
    RunSnoc(OneUser(), [], DeleteRead(0, "", "u", {}));
    assert [] + p == p;
    assert Run(OneUser(), p) == OneUser().(calls := map[0 := Sweeper("", "u", "a", PAIR_OF_U, {})]);
    RunSnoc(OneUser(), p, DeleteRead(1, "", "u", {}));
  }

  lemma FirstDeletionSweepsTheProfile()
    ensures Run(OneUser(), DeleteOverDelete()[..3]) ==
            State(false, map[Email("", "a") := EmailItem("u", "")],
                  map[0 := Sweeper("", "u", "a", {Email("", "a")}, {}), 1 := Sweeper("", "u", "a", PAIR_OF_U, {})])
  {
    TwoDeletionsHaveRead();
    var p := [DeleteRead(0, "", "u", {})] + [DeleteRead(1, "", "u", {})];
    RunSnoc(OneUser(), p, Sweep(0, Profile("", "u")));
    assert p + [Sweep(0, Profile("", "u"))] == DeleteOverDelete()[..3];
    var call := Sweeper("", "u", "a", PAIR_OF_U, {});
    assert call.left - {Profile("", "u")} == {Email("", "a")} && call.others - {Profile("", "u")} == {};
    assert Swept(call, Profile("", "u")) == Sweeper("", "u", "a", {Email("", "a")}, {});
    assert OneUser().table - {Profile("", "u")} == map[Email("", "a") := EmailItem("u", "")];
  }

  lemma AfterDeleteOverDelete()
    ensures Run(OneUser(), DeleteOverDelete()) ==
            State(false, map[], map[0 := Finished(Success), 1 := Sweeper("", "u", "a", PAIR_OF_U, {})])
  {
    FirstDeletionSweepsTheProfile();
    RunSnoc(OneUser(), DeleteOverDelete()[..3], Sweep(0, Email("", "a")));
    assert DeleteOverDelete()[..3] + [Sweep(0, Email("", "a"))] == DeleteOverDelete();
  }

  /** A sweep still to delete "a" has outlived the item: registering is not harmless, and after the delete anybody may register again. */
  lemma OutlivedSweepSharesAnAddress(s: State)
    requires s == State(false, map[], map[0 := Finished(Success), 1 := Sweeper("", "u", "a", PAIR_OF_U, {})])
    ensures !Harmless(s, Create("", "v", "a", "", "", "", 0))
    ensures var tb := Next(Next(Next(s, Create("", "v", "a", "", "", "", 0)), Sweep(1, Email("", "a"))), Create("", "w", "a", "", "", "", 0)).table;
            IsProfile(tb, "", "v") && IsProfile(tb, "", "w")
            && tb[Profile("", "v")].email == tb[Profile("", "w")].email
  {
    PlainNames();
    assert Email("", "a") in Left(s.calls[1]);
    assert Profile("", "v") !in Doomed(s);
  }

  /**
   The second deletion then deletes v's address item, and a third user registers the address v
   still holds. The step that is not harmless is v's registration.
   */
  lemma OverlappingDeletionsShareAnAddress()
    ensures var second := Run(OneUser(), DeleteOverDelete());
            !Harmless(second, Create("", "v", "a", "", "", "", 0))
    ensures var tb := Run(OneUser(), DeleteOverDelete() + [Create("", "v", "a", "", "", "", 0)]
                                     + [Sweep(1, Email("", "a"))] + [Create("", "w", "a", "", "", "", 0)]).table;
            IsProfile(tb, "", "v") && IsProfile(tb, "", "w")
            && tb[Profile("", "v")].email == tb[Profile("", "w")].email
  {
    AfterDeleteOverDelete();
    OutlivedSweepSharesAnAddress(Run(OneUser(), DeleteOverDelete()));
    var r := DeleteOverDelete();
    RunSnoc(OneUser(), r, Create("", "v", "a", "", "", "", 0));
    RunSnoc(OneUser(), r + [Create("", "v", "a", "", "", "", 0)], Sweep(1, Email("", "a")));
    RunSnoc(OneUser(), r + [Create("", "v", "a", "", "", "", 0)] + [Sweep(1, Email("", "a"))], Create("", "w", "a", "", "", "", 0));
  }

  // ---- what half a sweep costs ------------------------------------------------------

  /** The item EMAIL#t#e names `u`, no profile carries the address, and nothing in flight is about to delete the item. */
  ghost predicate Stranded(s: State, t: string, u: string, e: string) {
    && Email(t, e) in s.table && s.table[Email(t, e)] == EmailItem(u, t)
    && (forall v :: IsProfile(s.table, t, v) ==> s.table[Profile(t, v)].email != e)
    && (forall c :: Sweeping(s, c) ==> Email(t, e) !in s.calls[c].left && Email(t, e) !in s.calls[c].others)
  }

  lemma StrandedIsCarriedByNobody(s: State, step: Step, t: string, u: string, e: string, v: string)
    requires Stranded(s, t, u, e) && IsProfile(Next(s, step).table, t, v)
    ensures Next(s, step).table[Profile(t, v)].email != e
  {
    assert IsProfile(s.table, t, v) ==> s.table[Profile(t, v)].email != e;
  }

  lemma StepStaysStranded(s: State, step: Step, t: string, u: string, e: string)
    requires Stranded(s, t, u, e)
    ensures Stranded(Next(s, step), t, u, e)
  {
    var s' := Next(s, step);
    forall c | Sweeping(s', c) ensures Email(t, e) !in s'.calls[c].left && Email(t, e) !in s'.calls[c].others {
      if c in s.calls && s.calls[c].Sweeper? {
        assert Sweeping(s, c);
      }
    }
    forall v | IsProfile(s'.table, t, v) ensures s'.table[Profile(t, v)].email != e {
      StrandedIsCarriedByNobody(s, step, t, u, e, v);
    }
  }

  /**
   A stranded address stays taken in every run, of creations, changes and deletions of any user:
   the item never goes, nobody ever carries the address, and every attempt to take it is refused.
   */
  lemma {:induction false} StrandedForGood(s: State, steps: seq<Step>, t: string, u: string, e: string)
    requires Stranded(s, t, u, e)
    ensures Stranded(Run(s, steps), t, u, e)
    decreases |steps|
  {
    if steps != [] {
      StrandedForGood(s, steps[..|steps| - 1], t, u, e);
      StepStaysStranded(Run(s, steps[..|steps| - 1]), steps[|steps| - 1], t, u, e);
    }
  }

  /** Registering with the address, and changing to it, are refused as long as it is stranded. */
  lemma StrandedIsRefused(s: State, t: string, u: string, e: string, v: string, profile: Item, current: string)
    requires Stranded(s, t, u, e) && profile.ProfileItem? && profile.email == e
    ensures CreateTx(s.table, t, v, profile) == (UserExists, s.table)
    ensures CommitTx(s.table, t, v, current, e) == (UserExists, s.table)
    ensures Profile(t, u) !in s.table ==> UserByEmail(s.table, t, e) == None
  {
  }

  /** A sweep that is abandoned strands its address exactly when it lets the address item go and no profile carries the address. */
  lemma HalfSweptAddressIsStranded(s: State, c: nat)
    requires Inv(s) && Sweeping(s, c)
    ensures var (t, e) := (s.calls[c].tenant, s.calls[c].address);
            (exists u :: Stranded(Next(s, Fault(c)), t, u, e)) <==>
            Email(t, e) in Released(s, c) && forall v :: IsProfile(s.table, t, v) ==> s.table[Profile(t, v)].email != e
  {
    var s', t, e := Next(s, Fault(c)), s.calls[c].tenant, s.calls[c].address;
    HeldMoves(s.calls, c, s'.calls[c]);
    HeldSplits(s.calls, c);
    if u :| Stranded(s', t, u, e) {
      HolderOfSettledItem(s, t, e);
      forall d | d in s.calls - {c} ensures Email(t, e) !in Left(s.calls[d]) {
        assert Sweeping(s, d) ==> Sweeping(s', d);
      }
      assert Email(t, e) !in Held(s.calls - {c});
    }
    if Email(t, e) in Released(s, c) && forall v :: IsProfile(s.table, t, v) ==> s.table[Profile(t, v)].email != e {
      forall d | Sweeping(s', d) ensures Email(t, e) !in s'.calls[d].left && Email(t, e) !in s'.calls[d].others {
        assert d in s.calls - {c} && s.calls[d] == s'.calls[d];
        assert Email(t, e) in Left(s.calls[d]) ==> Email(t, e) in Held(s.calls - {c});
        assert OtherKind(Email(t, e)) == false;
      }
      assert Stranded(s', t, s.table[Email(t, e)].user, e);
    }
  }

  /** An address item that no sweep is about to delete has a profile that carries its address. */
  lemma HolderOfSettledItem(s: State, t: string, e: string)
    requires Inv(s)
    ensures Email(t, e) in Settled(s) ==> IsProfile(s.table, t, s.table[Email(t, e)].user) && s.table[Profile(t, s.table[Email(t, e)].user)].email == e
  {
  }

  /** One user whose deletion stopped after the profile: the whole run, from a settled table to a stranded address. */
  lemma AbandonedDeletionStrands()
    ensures Stranded(Run(OneUser(), [DeleteRead(1, "", "u", {})] + [Sweep(1, Profile("", "u"))] + [Fault(1)]), "", "u", "a")
  {
    PlainNames();
    var r := [DeleteRead(1, "", "u", {})];
    RunSnoc(OneUser(), [], DeleteRead(1, "", "u", {}));
    assert [] + r == r;
    RunSnoc(OneUser(), r, Sweep(1, Profile("", "u")));
    RunSnoc(OneUser(), r + [Sweep(1, Profile("", "u"))], Fault(1));
    var read := Run(OneUser(), r);
    assert read.calls[1] == Sweeper("", "u", "a", {Profile("", "u"), Email("", "a")}, {});
  }
}
