/**
 The metadata store (internal/store/dynamodb/metadata.go): one item per key of a user's
 map. An update merges without reading, in batches that are no transaction; the map a
 caller sees is what all the items of the user's partition say together.
 */
module MetadataStore {
  import opened Bytes
  import opened Keys
  import opened AnyValue

  const SCHEMA_VERSION := 1
  const MAX_VALUE_BYTES := 65536
  const MAX_BATCH := 25
  const ATTEMPTS := 8

  /** The attributes of an item the metadata store reads; an absent value reads like NULL. */
  datatype Item = Item(value: Attribute, version: int, updatedAt: string)

  type Table = map<ItemKey, Item>

  datatype Outcome = Success | InvalidIdentifier | UnsupportedValue | TooLarge | ResultTooLarge | NewerVersion | StoreFault

  lemma SameEverywhere<K(!new), V>(m: map<K, V>, m': map<K, V>)
    requires forall k :: At(m', k) == At(m, k)
    ensures m' == m
  {
    forall k: K ensures k in m' <==> k in m {
      assert At(m', k) == At(m, k);
    }
    forall k | k in m ensures m'[k] == m[k] {
      assert At(m', k) == At(m, k);
    }
  }

  // ---- the map a caller sees ----------------------------------------------------

  function Names(tb: Table, u: string): set<string> {
    set k | k in tb && k.Metadata? && k.user == u :: k.name
  }

  lemma NamesAreKeys(tb: Table, u: string)
    ensures forall name :: name in Names(tb, u) <==> Metadata(u, name) in tb
  {
    forall name | Metadata(u, name) in tb ensures name in Names(tb, u) {
      assert Metadata(u, name).name == name;
    }
  }

  function View(tb: Table, u: string): map<string, GoValue> {
    map name | name in Names(tb, u) :: Decode(tb[Metadata(u, name)].value)
  }

  /** What a value reads back as once stored. */
  function JsonOf(data: map<string, GoValue>): map<string, GoValue> {
    map name | name in data :: AsJson(data[name])
  }

  // ---- validation ----------------------------------------------------------------

  /** itemBytes of the whole item: every attribute name and value the item carries. */
  ghost function EntryBytes(u: string, name: string, value: Attribute, stamp: string): nat {
    var k := Metadata(u, name);
    |"PK"| + |PartitionKey(k)| + |"SK"| + |SortKey(k)| + |"_t"| + |"meta"| + |"_v"| + |"1"| + 1
    + |"userId"| + |u| + |"value"| + AttributeBytes(value) + |"updatedAt"| + |stamp|
  }

  /** Why one entry is refused, None when it is not. */
  ghost function Refusal(u: string, name: string, v: GoValue, stamp: string): Option<Outcome> {
    if !ValidOpaque(name, MAX_META_KEY_LEN) then Some(InvalidIdentifier)
    else match Encode(v)
      case None => Some(UnsupportedValue)
      case Some(value) => if EntryBytes(u, name, value, stamp) > MAX_VALUE_BYTES then Some(TooLarge) else None
  }

  ghost predicate Accepted(u: string, data: map<string, GoValue>, stamps: string -> string) {
    forall name :: name in data ==> Refusal(u, name, data[name], stamps(name)).None?
  }

  /** Every value has an attribute, and what it holds is JSON or a Go number. */
  predicate Encodable(data: map<string, GoValue>) {
    forall name :: name in data ==> Encode(data[name]).Some?
  }

  predicate Readable(data: map<string, GoValue>) {
    forall name :: name in data ==> InScope(data[name])
  }

  // ---- one merge --------------------------------------------------------------------

  function ItemOf(v: GoValue, stamp: string): Item
    requires Encode(v).Some?
  {
    Item(Encode(v).value, SCHEMA_VERSION, stamp)
  }

  function Merge(tb: Table, u: string, data: map<string, GoValue>, stamps: string -> string): Table
    requires Encodable(data)
  {
    tb + map name | name in data :: Metadata(u, name) := ItemOf(data[name], stamps(name))
  }

  lemma MergeAt(tb: Table, u: string, data: map<string, GoValue>, stamps: string -> string, k: ItemKey)
    requires Encodable(data)
    ensures At(Merge(tb, u, data, stamps), k) ==
            if k.Metadata? && k.user == u && k.name in data then Some(ItemOf(data[k.name], stamps(k.name))) else At(tb, k)
  {
    var puts := map name | name in data :: Metadata(u, name) := ItemOf(data[name], stamps(name));
    assert k in puts <==> k.Metadata? && k.user == u && k.name in data;
  }

  lemma ViewAt(tb: Table, u: string, name: string)
    ensures At(View(tb, u), name) ==
            match At(tb, Metadata(u, name)) case Some(item) => Some(Decode(item.value)) case None => None
  {
    NamesAreKeys(tb, u);
  }

  lemma MergedViewAt(tb: Table, u: string, data: map<string, GoValue>, stamps: string -> string, name: string)
    requires Encodable(data) && Readable(data)
    ensures At(View(Merge(tb, u, data, stamps), u), name) ==
            if name in data then Some(AsJson(data[name])) else At(View(tb, u), name)
  {
    MergeAt(tb, u, data, stamps, Metadata(u, name));
    ViewAt(tb, u, name);
    ViewAt(Merge(tb, u, data, stamps), u, name);
    if name in data {
      RoundTrip(data[name]);
    }
  }

  /** GetMetadata after UpdateMetadata is map override. */
  lemma MergeIsOverride(tb: Table, u: string, data: map<string, GoValue>, stamps: string -> string)
    requires Encodable(data) && Readable(data)
    ensures View(Merge(tb, u, data, stamps), u) == View(tb, u) + JsonOf(data)
  {
    var after := View(Merge(tb, u, data, stamps), u);
    var expected := View(tb, u) + JsonOf(data);
    forall name ensures At(after, name) == At(expected, name) {
      MergedViewAt(tb, u, data, stamps, name);
    }
    SameEverywhere(expected, after);
  }

  /** No other user's map and no item of another kind notices a merge. */
  lemma MergeIsConfined(tb: Table, u: string, data: map<string, GoValue>, stamps: string -> string, u': string)
    requires Encodable(data) && u' != u
    ensures View(Merge(tb, u, data, stamps), u') == View(tb, u')
    ensures forall k: ItemKey :: !k.Metadata? ==> At(Merge(tb, u, data, stamps), k) == At(tb, k)
  {
    var after := Merge(tb, u, data, stamps);
    forall name ensures At(View(after, u'), name) == At(View(tb, u'), name) {
      MergeAt(tb, u, data, stamps, Metadata(u', name));
      ViewAt(tb, u', name);
      ViewAt(after, u', name);
    }
    SameEverywhere(View(tb, u'), View(after, u'));
    forall k: ItemKey | !k.Metadata? ensures At(after, k) == At(tb, k) {
      MergeAt(tb, u, data, stamps, k);
    }
  }

  // ---- interleaved merges --------------------------------------------------------------

  /** One UpdateMetadata call on the user; the clock is read for each entry. */
  datatype Update = Update(data: map<string, GoValue>, stamps: string -> string)

  /** One put of a call's batches landing on the table; a retry may land it again. */
  datatype Landing = Landing(call: nat, name: string)

  predicate ValidLanding(calls: seq<Update>, w: Landing) {
    w.call < |calls| && w.name in calls[w.call].data && Encodable(calls[w.call].data)
  }

  function Landed(calls: seq<Update>, w: Landing): Item
    requires ValidLanding(calls, w)
  {
    ItemOf(calls[w.call].data[w.name], calls[w.call].stamps(w.name))
  }

  /** The puts of any number of concurrent calls, in the order the table applied them. */
  function RunLandings(tb: Table, u: string, calls: seq<Update>, order: seq<Landing>): Table
    requires forall i :: 0 <= i < |order| ==> ValidLanding(calls, order[i])
  {
    if order == [] then tb
    else
      var w := order[|order| - 1];
      RunLandings(tb, u, calls, order[..|order| - 1])[Metadata(u, w.name) := Landed(calls, w)]
  }

  predicate Lands(order: seq<Landing>, name: string) {
    exists i :: 0 <= i < |order| && order[i].name == name
  }

  function LastOf(order: seq<Landing>, name: string): (i: nat)
    requires Lands(order, name)
    ensures i < |order| && order[i].name == name
    ensures forall j :: i < j < |order| ==> order[j].name != name
    decreases |order|
  {
    var n := |order| - 1;
    if order[n].name == name then n
    else
      assert Lands(order[..n], name) by {
        var j :| 0 <= j < |order| && order[j].name == name;
        assert order[..n][j] == order[j];
      }
      LastOf(order[..n], name)
  }

  lemma LandsEarlier(order: seq<Landing>, name: string)
    requires order != [] && order[|order| - 1].name != name
    ensures Lands(order[..|order| - 1], name) <==> Lands(order, name)
    ensures Lands(order, name) ==>
              LastOf(order, name) == LastOf(order[..|order| - 1], name)
              && order[..|order| - 1][LastOf(order, name)] == order[LastOf(order, name)]
  {
    var prefix := order[..|order| - 1];
    assert forall i :: 0 <= i < |prefix| ==> prefix[i] == order[i];
    if Lands(order, name) {
      var i :| 0 <= i < |order| && order[i].name == name;
      assert prefix[i].name == name;
    }
  }

  /** Whatever interleaves, each key of the user's map holds its own last put. */
  lemma {:induction false} LastLandingWins(tb: Table, u: string, calls: seq<Update>, order: seq<Landing>, name: string)
    requires forall i :: 0 <= i < |order| ==> ValidLanding(calls, order[i])
    ensures At(RunLandings(tb, u, calls, order), Metadata(u, name)) ==
            if Lands(order, name) then Some(Landed(calls, order[LastOf(order, name)])) else At(tb, Metadata(u, name))
    decreases |order|
  {
    if order != [] {
      var n := |order| - 1;
      if order[n].name == name {
        assert LastOf(order, name) == n;
      } else {
        assert Metadata(u, order[n].name) != Metadata(u, name);
        LastLandingWins(tb, u, calls, order[..n], name);
        LandsEarlier(order, name);
      }
    }
  }

  lemma {:induction false} LandingsTouchOneMap(tb: Table, u: string, calls: seq<Update>, order: seq<Landing>, k: ItemKey)
    requires forall i :: 0 <= i < |order| ==> ValidLanding(calls, order[i])
    requires !k.Metadata? || k.user != u
    ensures At(RunLandings(tb, u, calls, order), k) == At(tb, k)
    decreases |order|
  {
    if order != [] {
      LandingsTouchOneMap(tb, u, calls, order[..|order| - 1], k);
    }
  }

  /** The calls one after the other, as if nothing had interleaved. */
  function MergeAll(tb: Table, u: string, calls: seq<Update>): Table
    requires forall c :: 0 <= c < |calls| ==> Encodable(calls[c].data)
  {
    if calls == [] then tb
    else
      var last := calls[|calls| - 1];
      Merge(MergeAll(tb, u, calls[..|calls| - 1]), u, last.data, last.stamps)
  }

  ghost predicate DisjointCalls(calls: seq<Update>) {
    forall c, d, name :: 0 <= c < d < |calls| && name in calls[c].data ==> name !in calls[d].data
  }

  lemma {:induction false} MergeAllAtOwn(tb: Table, u: string, calls: seq<Update>, c: nat, name: string)
    requires forall c :: 0 <= c < |calls| ==> Encodable(calls[c].data)
    requires DisjointCalls(calls) && c < |calls| && name in calls[c].data
    ensures At(MergeAll(tb, u, calls), Metadata(u, name)) == Some(ItemOf(calls[c].data[name], calls[c].stamps(name)))
    decreases |calls|
  {
    if c < |calls| - 1 {
      MergeAllAtOwn(tb, u, calls[..|calls| - 1], c, name);
    }
  }

  lemma {:induction false} MergeAllElsewhere(tb: Table, u: string, calls: seq<Update>, k: ItemKey)
    requires forall c :: 0 <= c < |calls| ==> Encodable(calls[c].data)
    requires k.Metadata? && k.user == u ==> forall c :: 0 <= c < |calls| ==> k.name !in calls[c].data
    ensures At(MergeAll(tb, u, calls), k) == At(tb, k)
    decreases |calls|
  {
    if calls != [] {
      MergeAllElsewhere(tb, u, calls[..|calls| - 1], k);
    }
  }

  lemma OwnedNamesLand(calls: seq<Update>, order: seq<Landing>, name: string)
    requires forall c, name :: 0 <= c < |calls| && name in calls[c].data ==> Landing(c, name) in order
    ensures Lands(order, name) || forall c :: 0 <= c < |calls| ==> name !in calls[c].data
  {
    if c :| 0 <= c < |calls| && name in calls[c].data {
      var i :| 0 <= i < |order| && order[i] == Landing(c, name);
      assert order[i].name == name;
    }
  }

  /**
   Merges on disjoint keys commute: every order in which all their puts land, repeats
   included, leaves the table the calls leave one after the other.
   */
  lemma DisjointMergesCommute(tb: Table, u: string, calls: seq<Update>, order: seq<Landing>)
    requires forall c :: 0 <= c < |calls| ==> Encodable(calls[c].data)
    requires DisjointCalls(calls)
    requires forall i :: 0 <= i < |order| ==> ValidLanding(calls, order[i])
    requires forall c, name :: 0 <= c < |calls| && name in calls[c].data ==> Landing(c, name) in order
    ensures RunLandings(tb, u, calls, order) == MergeAll(tb, u, calls)
  {
    var after, all := RunLandings(tb, u, calls, order), MergeAll(tb, u, calls);
    forall k: ItemKey ensures At(after, k) == At(all, k) {
      if !k.Metadata? || k.user != u {
        LandingsTouchOneMap(tb, u, calls, order, k);
        MergeAllElsewhere(tb, u, calls, k);
      } else {
        LastLandingWins(tb, u, calls, order, k.name);
        if Lands(order, k.name) {
          MergeAllAtOwn(tb, u, calls, order[LastOf(order, k.name)].call, k.name);
        } else {
          OwnedNamesLand(calls, order, k.name);
          MergeAllElsewhere(tb, u, calls, k);
        }
      }
    }
    SameEverywhere(all, after);
  }

  function AllJson(calls: seq<Update>): map<string, GoValue> {
    if calls == [] then map[] else AllJson(calls[..|calls| - 1]) + JsonOf(calls[|calls| - 1].data)
  }

  /** What a reader sees once every put of every concurrent call has landed. */
  lemma {:induction false} ConcurrentMergesRead(tb: Table, u: string, calls: seq<Update>)
    requires forall c :: 0 <= c < |calls| ==> Encodable(calls[c].data)
    requires forall c :: 0 <= c < |calls| ==> Readable(calls[c].data)
    ensures View(MergeAll(tb, u, calls), u) == View(tb, u) + AllJson(calls)
    decreases |calls|
  {
    if calls != [] {
      var prefix, last := calls[..|calls| - 1], calls[|calls| - 1];
      ConcurrentMergesRead(tb, u, prefix);
      var before := MergeAll(tb, u, prefix);
      MergeIsOverride(before, u, last.data, last.stamps);
      OverrideAssociates(View(tb, u), AllJson(prefix), JsonOf(last.data));
    }
  }

  lemma OverrideAssociates<K, V>(a: map<K, V>, b: map<K, V>, c: map<K, V>)
    ensures a + b + c == a + (b + c)
  {
  }

  // ---- the cap on one user's keys ---------------------------------------------------------

  /** A ClearMetadata or DeleteUser call between its query and its last delete. */
  datatype Clearing = Clearing(user: string, names: set<string>)

  datatype State = State(table: Table, clears: map<nat, Clearing>)

  /**
   An update counts nothing, so any put lands. ClearMetadata and the metadata half of DeleteUser
   drain the same listing, and are refused past the cap before they delete anything.
   */
  datatype Step =
    | Put(user: string, name: string, item: Item)
    | StartClear(call: nat, user: string)
    | StartDeleteUser(call: nat, user: string)
    | Delete(call: nat, name: string)

  function Started(s: State, c: nat, u: string, cap: nat): State {
    if c in s.clears || |Names(s.table, u)| > cap then s else s.(clears := s.clears[c := Clearing(u, Names(s.table, u))])
  }

  predicate Starts(step: Step, u: string) { (step.StartClear? || step.StartDeleteUser?) && step.user == u }

  function Next(s: State, step: Step, cap: nat): State {
    match step
    case Put(u, name, item) => s.(table := s.table[Metadata(u, name) := item])
    case StartClear(c, u) => Started(s, c, u, cap)
    case StartDeleteUser(c, u) => Started(s, c, u, cap)
    case Delete(c, name) =>
      if c !in s.clears || name !in s.clears[c].names then s
      else
        var clearing := s.clears[c];
        State(s.table - {Metadata(clearing.user, name)}, s.clears[c := clearing.(names := clearing.names - {name})])
  }

  function Run(s: State, steps: seq<Step>, cap: nat): State {
    if steps == [] then s else Next(Run(s, steps[..|steps| - 1], cap), steps[|steps| - 1], cap)
  }

  ghost predicate PastTheCap(s: State, u: string, cap: nat) {
    && |Names(s.table, u)| > cap
    && forall c :: c in s.clears && s.clears[c].user == u ==> s.clears[c].names == {}
  }

  lemma Grows<T>(a: set<T>, b: set<T>)
    requires a <= b
    ensures |a| <= |b|
  {
    assert b == a + (b - a);
  }

  lemma StepStaysPastTheCap(s: State, step: Step, u: string, cap: nat)
    requires PastTheCap(s, u, cap)
    ensures PastTheCap(Next(s, step, cap), u, cap) && Names(s.table, u) <= Names(Next(s, step, cap).table, u)
  {
    var after := Next(s, step, cap);
    NamesAreKeys(s.table, u);
    NamesAreKeys(after.table, u);
    Grows(Names(s.table, u), Names(after.table, u));
  }

  /**
   Nothing an update does looks at the cap, and every call that drains the listing is refused past
   it: a user's map that has outgrown it only grows, in every run of updates, clears and deletions.
   */
  lemma {:induction false} PastTheCapForGood(s: State, steps: seq<Step>, u: string, cap: nat)
    requires PastTheCap(s, u, cap)
    ensures PastTheCap(Run(s, steps, cap), u, cap) && Names(s.table, u) <= Names(Run(s, steps, cap).table, u)
    decreases |steps|
  {
    if steps != [] {
      PastTheCapForGood(s, steps[..|steps| - 1], u, cap);
      StepStaysPastTheCap(Run(s, steps[..|steps| - 1], cap), steps[|steps| - 1], u, cap);
    }
  }

  /** In all of them neither a clear nor a deletion of the user ever starts: such a user cannot be deleted. */
  lemma PastTheCapNothingStarts(s: State, steps: seq<Step>, step: Step, u: string, cap: nat)
    requires PastTheCap(s, u, cap) && Starts(step, u)
    ensures Next(Run(s, steps, cap), step, cap) == Run(s, steps, cap)
  {
    PastTheCapForGood(s, steps, u, cap);
  }

  /** A merge names what was named and what it carries. */
  lemma MergeNames(tb: Table, u: string, data: map<string, GoValue>, stamps: string -> string)
    requires Encodable(data)
    ensures Names(Merge(tb, u, data, stamps), u) == Names(tb, u) + data.Keys
  {
    var after := Merge(tb, u, data, stamps);
    NamesAreKeys(tb, u);
    NamesAreKeys(after, u);
    forall name ensures name in Names(after, u) <==> name in Names(tb, u) + data.Keys {
      MergeAt(tb, u, data, stamps, Metadata(u, name));
    }
  }

  ghost predicate NoClearOf(s: State, u: string) {
    forall c :: c in s.clears ==> s.clears[c].user != u
  }

  /**
   An accepted merge is carried out whatever the user's map has grown to, so it takes the map
   past the cap exactly when what is there and what it carries are more keys than the cap.
   */
  lemma MergePassesTheCapIff(s: State, u: string, data: map<string, GoValue>, stamps: string -> string, cap: nat)
    requires Accepted(u, data, stamps) && NoClearOf(s, u)
    ensures Encodable(data)
    ensures PastTheCap(s.(table := Merge(s.table, u, data, stamps)), u, cap) <==> |Names(s.table, u) + data.Keys| > cap
  {
    forall name | name in data ensures Encode(data[name]).Some? {
      assert Refusal(u, name, data[name], stamps(name)).None?;
    }
    MergeNames(s.table, u, data, stamps);
  }

  function PutKey(step: Step, u: string): set<string> {
    if step.Put? && step.user == u then {step.name} else {}
  }

  /** The keys a run puts into the user's map. */
  function PutKeys(steps: seq<Step>, u: string): set<string> {
    if steps == [] then {} else PutKeys(steps[..|steps| - 1], u) + PutKey(steps[|steps| - 1], u)
  }

  ghost predicate ClearsNothingOf(steps: seq<Step>, u: string) {
    forall i :: 0 <= i < |steps| ==> !Starts(steps[i], u)
  }

  lemma StepHasName(s: State, step: Step, u: string, name: string, cap: nat)
    requires NoClearOf(s, u)
    ensures Metadata(u, name) in Next(s, step, cap).table <==> Metadata(u, name) in s.table || name in PutKey(step, u)
  {
  }

  lemma StepNames(s: State, step: Step, u: string, cap: nat)
    requires NoClearOf(s, u)
    ensures Names(Next(s, step, cap).table, u) == Names(s.table, u) + PutKey(step, u)
  {
    var after := Next(s, step, cap).table;
    forall name ensures name in Names(after, u) <==> name in Names(s.table, u) + PutKey(step, u) {
      StepHasName(s, step, u, name, cap);
      NameIsKey(s.table, u, name);
      NameIsKey(after, u, name);
    }
  }

  lemma NameIsKey(tb: Table, u: string, name: string)
    ensures name in Names(tb, u) <==> Metadata(u, name) in tb
  {
    NamesAreKeys(tb, u);
  }

  lemma StepClearsNothingOf(s: State, step: Step, u: string, cap: nat)
    requires NoClearOf(s, u) && !Starts(step, u)
    ensures NoClearOf(Next(s, step, cap), u)
  {
  }

  lemma {:induction false} PutsAddTheirKeys(s: State, steps: seq<Step>, u: string, cap: nat)
    requires NoClearOf(s, u) && ClearsNothingOf(steps, u)
    ensures NoClearOf(Run(s, steps, cap), u)
    ensures Names(Run(s, steps, cap).table, u) == Names(s.table, u) + PutKeys(steps, u)
    decreases |steps|
  {
    if steps == [] {
    } else {
      var prefix, last := steps[..|steps| - 1], steps[|steps| - 1];
      PutsAddTheirKeys(s, prefix, u, cap);
      StepClearsNothingOf(Run(s, prefix, cap), last, u, cap);
      StepNames(Run(s, prefix, cap), last, u, cap);
      UnionAssociates(Names(s.table, u), PutKeys(prefix, u), PutKey(last, u));
    }
  }

  lemma UnionAssociates<T>(a: set<T>, b: set<T>, c: set<T>)
    ensures a + b + c == a + (b + c)
  {
  }

  /** The same of any number of merges at once: puts pass the cap exactly when their keys and those there do. */
  lemma PutsPassTheCapIff(s: State, steps: seq<Step>, u: string, cap: nat)
    requires NoClearOf(s, u) && ClearsNothingOf(steps, u)
    ensures PastTheCap(Run(s, steps, cap), u, cap) <==> |Names(s.table, u) + PutKeys(steps, u)| > cap
  {
    PutsAddTheirKeys(s, steps, u, cap);
  }

  // ---- the store ------------------------------------------------------------------------------

  datatype Request = PutItem(key: ItemKey, item: Item) | DeleteItem(key: ItemKey)

  predicate Holds(tb: Table, r: Request) {
    if r.PutItem? then At(tb, r.key) == Some(r.item) else r.key !in tb
  }

  predicate DistinctKeys(reqs: seq<Request>) {
    forall i, j :: 0 <= i < j < |reqs| ==> reqs[i].key != reqs[j].key
  }

  predicate Touches(reqs: seq<Request>, done: set<nat>, k: ItemKey) {
    exists i :: i in done && i < |reqs| && reqs[i].key == k
  }

  /** `after` is `before` with exactly the requests in `done` carried out. */
  ghost predicate Applied(before: Table, after: Table, reqs: seq<Request>, done: set<nat>) {
    && (forall i :: i in done ==> i < |reqs| && Holds(after, reqs[i]))
    && (forall k :: !Touches(reqs, done, k) ==> At(after, k) == At(before, k))
  }

  lemma AppliedThen(before: Table, middle: Table, after: Table, reqs: seq<Request>, done: set<nat>, more: set<nat>)
    requires DistinctKeys(reqs) && done !! more
    requires Applied(before, middle, reqs, done) && Applied(middle, after, reqs, more)
    ensures Applied(before, after, reqs, done + more)
  {
    forall i | i in done ensures Holds(after, reqs[i]) {
      var k := reqs[i].key;
      forall j | j in more && j < |reqs| ensures reqs[j].key != k {
        assert i < j || j < i;
      }
      assert !Touches(reqs, more, k);
      assert At(after, k) == At(middle, k);
    }
    forall k | !Touches(reqs, done + more, k) ensures At(after, k) == At(before, k) {
      assert !Touches(reqs, done, k) && !Touches(reqs, more, k);
    }
  }

  /** The indices of one batch. */
  function Range(lo: nat, hi: nat): (s: set<nat>)
    requires lo <= hi
    ensures forall i :: i in s <==> lo <= i < hi
    decreases hi
  {
    if lo == hi then {} else Range(lo, hi - 1) + {hi - 1}
  }

  /** The loop so far: a refusal one of the entries earns, or puts for all the entries seen. */
  ghost predicate Prepared(refusal: Option<Outcome>, reqs: seq<Request>, u: string, data: map<string, GoValue>, seen: set<string>, stamps: string -> string) {
    if refusal.Some? then exists name :: name in data && Refusal(u, name, data[name], stamps(name)) == refusal
    else
      && (forall name :: name in seen ==> name in data && Refusal(u, name, data[name], stamps(name)).None?)
      && PutsOf(reqs, u, data, seen, stamps)
  }

  lemma OneFewer<T>(all: set<T>, todo: set<T>, x: T)
    requires x in todo && todo <= all
    ensures all - (todo - {x}) == all - todo + {x}
  {
  }

  lemma PreparedIsAccepted(reqs: seq<Request>, u: string, data: map<string, GoValue>, stamps: string -> string)
    requires Prepared(None, reqs, u, data, data.Keys, stamps)
    ensures Accepted(u, data, stamps) && PutsOf(reqs, u, data, data.Keys, stamps)
  {
  }

  function PutNames(reqs: seq<Request>): set<string> {
    if reqs == [] then {}
    else
      var k := reqs[|reqs| - 1].key;
      PutNames(reqs[..|reqs| - 1]) + if k.Metadata? then {k.name} else {}
  }

  lemma {:induction false} PutNamed(reqs: seq<Request>, name: string) returns (i: nat)
    requires name in PutNames(reqs)
    ensures i < |reqs| && reqs[i].key.Metadata? && reqs[i].key.name == name
    decreases |reqs|
  {
    i := |reqs| - 1;
    if !(reqs[i].key.Metadata? && reqs[i].key.name == name) {
      i := PutNamed(reqs[..i], name);
    }
  }

  /** `r` puts the entry of one of the named keys. */
  ghost predicate PutFor(r: Request, u: string, data: map<string, GoValue>, names: set<string>, stamps: string -> string) {
    && r.PutItem? && r.key.Metadata? && r.key.user == u && r.key.name in names && r.key.name in data
    && Encode(data[r.key.name]).Some? && r.item == ItemOf(data[r.key.name], stamps(r.key.name))
  }

  /** `reqs` puts each of the named entries once. */
  ghost predicate PutsOf(reqs: seq<Request>, u: string, data: map<string, GoValue>, names: set<string>, stamps: string -> string) {
    && (forall i :: 0 <= i < |reqs| ==> PutFor(reqs[i], u, data, names, stamps))
    && PutNames(reqs) == names
    && DistinctKeys(reqs)
  }

  lemma PutsGrow(reqs: seq<Request>, u: string, data: map<string, GoValue>, names: set<string>, stamps: string -> string, name: string)
    requires PutsOf(reqs, u, data, names, stamps)
    requires name in data && name !in names && Encode(data[name]).Some?
    ensures PutsOf(reqs + [PutItem(Metadata(u, name), ItemOf(data[name], stamps(name)))], u, data, names + {name}, stamps)
  {
    var more := reqs + [PutItem(Metadata(u, name), ItemOf(data[name], stamps(name)))];
    assert more[..|reqs|] == reqs;
    forall i | 0 <= i < |more| ensures PutFor(more[i], u, data, names + {name}, stamps) {
      assert i < |reqs| ==> PutFor(reqs[i], u, data, names, stamps);
    }
    forall i | 0 <= i < |reqs| ensures reqs[i].key != Metadata(u, name) {
      assert PutFor(reqs[i], u, data, names, stamps);
    }
  }

  /** What a merge that a fault cut short leaves: each entry new or as it was, nothing else moved. */
  ghost predicate PartlyMerged(before: Table, after: Table, u: string, data: map<string, GoValue>, stamps: string -> string)
    requires Encodable(data)
  {
    forall k: ItemKey :: At(after, k) == At(before, k) || At(after, k) == At(Merge(before, u, data, stamps), k)
  }

  lemma PutsMerge(before: Table, after: Table, reqs: seq<Request>, done: set<nat>, u: string, data: map<string, GoValue>, stamps: string -> string)
    requires Encodable(data) && PutsOf(reqs, u, data, data.Keys, stamps) && Applied(before, after, reqs, done)
    ensures PartlyMerged(before, after, u, data, stamps)
    ensures done == Range(0, |reqs|) ==> after == Merge(before, u, data, stamps)
  {
    var merged := Merge(before, u, data, stamps);
    forall k: ItemKey
      ensures At(after, k) == At(before, k) || At(after, k) == At(merged, k)
      ensures done == Range(0, |reqs|) ==> At(after, k) == At(merged, k)
    {
      MergeAt(before, u, data, stamps, k);
      if i :| i in done && i < |reqs| && reqs[i].key == k {
        assert Holds(after, reqs[i]) && PutFor(reqs[i], u, data, data.Keys, stamps);
      } else {
        assert !Touches(reqs, done, k);
        if k.Metadata? && k.user == u && k.name in data {
          var i := PutNamed(reqs, k.name);
          assert PutFor(reqs[i], u, data, data.Keys, stamps);
          assert i !in done;
        }
      }
    }
    if done == Range(0, |reqs|) {
      SameEverywhere(merged, after);
    }
  }

  lemma RetryAt(before: Table, after: Table, u: string, data: map<string, GoValue>, stamps: string -> string, again: string -> string, name: string)
    requires Encodable(data) && Readable(data) && PartlyMerged(before, after, u, data, stamps)
    ensures At(View(Merge(after, u, data, again), u), name) == At(View(Merge(before, u, data, stamps), u), name)
  {
    MergedViewAt(after, u, data, again, name);
    MergedViewAt(before, u, data, stamps, name);
    if name !in data {
      MergeAt(before, u, data, stamps, Metadata(u, name));
      ViewAt(before, u, name);
      ViewAt(after, u, name);
    }
  }

  /** A retry completes what a fault cut short: the map reads as if the first call had succeeded. */
  lemma RetryCompletesTheMerge(before: Table, after: Table, u: string, data: map<string, GoValue>, stamps: string -> string, again: string -> string)
    requires Encodable(data) && Readable(data) && PartlyMerged(before, after, u, data, stamps)
    ensures View(Merge(after, u, data, again), u) == View(Merge(before, u, data, stamps), u)
  {
    var retried, first := View(Merge(after, u, data, again), u), View(Merge(before, u, data, stamps), u);
    forall name ensures At(retried, name) == At(first, name) {
      RetryAt(before, after, u, data, stamps, again, name);
    }
    SameEverywhere(first, retried);
  }

  /** `names` lists `all` without repetition. */
  ghost predicate Listing(names: seq<string>, all: set<string>) {
    && (forall i, j :: 0 <= i < j < |names| ==> names[i] != names[j])
    && (forall name :: name in names <==> name in all)
  }

  lemma ListingGrows(names: seq<string>, all: set<string>, name: string)
    requires Listing(names, all) && name !in all
    ensures Listing(names + [name], all + {name})
  {
    forall o | o in all + {name} ensures o in names + [name] {
      assert (names + [name])[|names|] == name;
    }
  }

  lemma {:induction false} ListingLength(names: seq<string>, all: set<string>)
    requires Listing(names, all)
    ensures |names| == |all|
    decreases |names|
  {
    if names == [] {
      assert all == {};
    } else {
      var last := names[|names| - 1];
      var prefix := names[..|names| - 1];
      assert names == prefix + [last];
      forall name ensures name in prefix <==> name in all - {last} {
        if name in prefix {
          var i :| 0 <= i < |prefix| && prefix[i] == name;
          assert names[i] != last;
        }
      }
      ListingLength(prefix, all - {last});
    }
  }

  lemma DeletesClear(before: Table, after: Table, reqs: seq<Request>, done: set<nat>, u: string, names: seq<string>)
    requires Listing(names, Names(before, u)) && |reqs| == |names|
    requires forall i :: 0 <= i < |reqs| ==> reqs[i] == DeleteItem(Metadata(u, names[i]))
    requires Applied(before, after, reqs, done)
    ensures forall k: ItemKey :: At(after, k) == At(before, k) || (k.Metadata? && k.user == u && k !in after)
    ensures done == Range(0, |reqs|) ==> View(after, u) == map[]
  {
    forall k: ItemKey ensures At(after, k) == At(before, k) || (k.Metadata? && k.user == u && k !in after) {
      if i :| i in done && i < |reqs| && reqs[i].key == k {
        assert Holds(after, reqs[i]);
      } else {
        assert !Touches(reqs, done, k);
      }
    }
    if done == Range(0, |reqs|) {
      forall name ensures name !in Names(after, u) {
        NamesAreKeys(before, u);
        NamesAreKeys(after, u);
        if name in names {
          var i :| 0 <= i < |names| && names[i] == name;
          assert Holds(after, reqs[i]);
        } else {
          assert !Touches(reqs, done, Metadata(u, name));
          assert At(after, Metadata(u, name)) == At(before, Metadata(u, name));
        }
      }
      assert Names(after, u) == {};
    }
  }

  class Store {
    const maxMetadataKeys: nat
    var items: Table

    constructor (maxMetadataKeys: nat)
      ensures items == map[] && this.maxMetadataKeys == maxMetadataKeys
    {
      this.maxMetadataKeys := maxMetadataKeys;
      items := map[];
    }

    /** batchWrite: batches of 25, each retried while the table hands requests back. No transaction. */
    method BatchWrite(reqs: seq<Request>) returns (ok: bool, ghost done: set<nat>)
      requires DistinctKeys(reqs)
      modifies this`items
      ensures Applied(old(items), items, reqs, done)
      ensures ok ==> done == Range(0, |reqs|)
    {
      done := {};
      var start := 0;
      while start < |reqs|
        invariant start <= |reqs|
        invariant Applied(old(items), items, reqs, done) && done == Range(0, start)
      {
        var end := if start + MAX_BATCH < |reqs| then start + MAX_BATCH else |reqs|;
        var pending := Range(start, end);
        var attempt := 0;
        while pending != {}
          invariant attempt <= ATTEMPTS
          invariant Applied(old(items), items, reqs, done)
          invariant pending <= Range(start, end) && done == Range(0, end) - pending
          decreases ATTEMPTS - attempt
        {
          if attempt == ATTEMPTS {
            return false, done;
          }
          ghost var before := items;
          var failed, taken := BatchWriteItem(reqs, pending);
          AppliedThen(old(items), before, items, reqs, done, taken);
          done := done + taken;
          if failed {
            return false, done;
          }
          pending := pending - taken;
          attempt := attempt + 1;
        }
        start := end;
      }
      return true, done;
    }

    /** One BatchWriteItem: the table carries out some of the requests, in its own order, and may still fail. */
    method BatchWriteItem(reqs: seq<Request>, pending: set<nat>) returns (failed: bool, taken: set<nat>)
      requires DistinctKeys(reqs) && forall i :: i in pending ==> i < |reqs|
      modifies this`items
      ensures taken <= pending && Applied(old(items), items, reqs, taken)
    {
      var willing: set<nat> :| willing <= pending;
      taken := {};
      while willing != {}
        invariant willing !! taken && willing + taken <= pending
        invariant Applied(old(items), items, reqs, taken)
        decreases |willing|
      {
        var i :| i in willing;
        ghost var before := items;
        if reqs[i].PutItem? {
          items := items[reqs[i].key := reqs[i].item];
        } else {
          items := items - {reqs[i].key};
        }
        OneApplied(before, items, reqs, i);
        AppliedThen(old(items), before, items, reqs, taken, {i});
        willing := willing - {i};
        taken := taken + {i};
      }
      failed :| true;
    }

    /** The loop that encodes and measures every entry, in whatever order the map is ranged over. */
    method PreparePuts(u: string, data: map<string, GoValue>, stamps: string -> string) returns (refusal: Option<Outcome>, reqs: seq<Request>)
      ensures Prepared(refusal, reqs, u, data, data.Keys, stamps)
    {
      refusal, reqs := None, [];
      var todo := data.Keys;
      assert data.Keys - todo == {};
      while todo != {} && refusal.None?
        invariant todo <= data.Keys
        invariant Prepared(refusal, reqs, u, data, data.Keys - todo, stamps)
        decreases todo, refusal.None?
      {
        var name :| name in todo;
        refusal, reqs := PrepareOne(reqs, u, data, data.Keys - todo, stamps, name);
        OneFewer(data.Keys, todo, name);
        todo := todo - {name};
      }
      if refusal.None? {
        assert data.Keys - todo == data.Keys;
      }
    }

    method PrepareOne(reqs: seq<Request>, u: string, data: map<string, GoValue>, ghost seen: set<string>, stamps: string -> string, name: string)
      returns (refusal: Option<Outcome>, more: seq<Request>)
      requires Prepared(None, reqs, u, data, seen, stamps) && name in data && name !in seen
      ensures Prepared(refusal, more, u, data, seen + {name}, stamps)
    {
      refusal := Check(u, name, data[name], stamps(name));
      if refusal.Some? {
        return refusal, [];
      }
      PutsGrow(reqs, u, data, seen, stamps, name);
      return None, reqs + [PutItem(Metadata(u, name), ItemOf(data[name], stamps(name)))];
    }

    method Check(u: string, name: string, v: GoValue, stamp: string) returns (r: Option<Outcome>)
      ensures r == Refusal(u, name, v, stamp)
      ensures r.None? ==> Encode(v).Some?
    {
      if !ValidOpaque(name, MAX_META_KEY_LEN) {
        return Some(InvalidIdentifier);
      }
      var value := Encode(v);
      if value.None? {
        return Some(UnsupportedValue);
      }
      var k := Metadata(u, name);
      var size := Measure(value.value);
      size := size + |"PK"| + |PartitionKey(k)| + |"SK"| + |SortKey(k)| + |"_t"| + |"meta"| + |"_v"| + |"1"| + 1
        + |"userId"| + |u| + |"value"| + |"updatedAt"| + |stamp|;
      return if size > MAX_VALUE_BYTES then Some(TooLarge) else None;
    }

    /**
     UpdateMetadata: every entry is encoded and measured before the first put, so a refusal
     writes nothing; only a fault of the table itself can leave part of the merge behind.
     */
    method UpdateMetadata(u: string, data: map<string, GoValue>, stamps: string -> string) returns (r: Outcome)
      modifies this`items
      ensures r == Success ==> ValidId(u) && Accepted(u, data, stamps) && Encodable(data) && items == Merge(old(items), u, data, stamps)
      ensures r == StoreFault ==> ValidId(u) && Accepted(u, data, stamps) && Encodable(data) && PartlyMerged(old(items), items, u, data, stamps)
      ensures r != Success && r != StoreFault ==>
                && items == old(items)
                && ((r == InvalidIdentifier && !ValidId(u)) || exists name :: name in data && Refusal(u, name, data[name], stamps(name)) == Some(r))
    {
      if !ValidId(u) {
        return InvalidIdentifier;
      }
      if data == map[] {
        assert items == Merge(items, u, data, stamps);
        return Success;
      }
      var refusal, reqs := PreparePuts(u, data, stamps);
      if refusal.Some? {
        return refusal.value;
      }
      PreparedIsAccepted(reqs, u, data, stamps);
      ghost var before := items;
      var ok, done := BatchWrite(reqs);
      PutsMerge(before, items, reqs, done, u, data, stamps);
      return if ok then Success else StoreFault;
    }

    /** metadataItems: the query's pages, drained until they end or exceed the cap. */
    method MetadataKeys(u: string) returns (names: Option<seq<string>>)
      ensures names.None? <==> |Names(items, u)| > maxMetadataKeys
      ensures names.Some? ==> Listing(names.value, Names(items, u))
    {
      var out: seq<string> := [];
      ghost var seen: set<string> := {};
      var todo := Names(items, u);
      while true
        invariant Listing(out, seen) && seen !! todo && seen + todo == Names(items, u)
        invariant |out| <= maxMetadataKeys
        decreases |todo|
      {
        // A page holds some more of the partition; an empty one ends it.
        var page: set<string> :| page <= todo && (page == {} ==> todo == {});
        if page == {} {
          ListingLength(out, seen);
          assert seen == Names(items, u);
          return Some(out);
        }
        out := AppendPage(out, seen, page);
        seen, todo := seen + page, todo - page;
        ListingLength(out, seen);
        if |out| > maxMetadataKeys {
          Grows(seen, Names(items, u));
          return None;
        }
      }
    }

    method AppendPage(out: seq<string>, ghost seen: set<string>, page: set<string>) returns (read: seq<string>)
      requires Listing(out, seen) && seen !! page
      ensures Listing(read, seen + page)
    {
      read := out;
      var rest := page;
      assert page - rest == {} && seen + {} == seen;
      while rest != {}
        invariant rest <= page && Listing(read, seen + (page - rest))
        decreases rest
      {
        var name :| name in rest;
        ListingGrows(read, seen + (page - rest), name);
        OneFewer(page, rest, name);
        UnionAssociates(seen, page - rest, {name});
        read := read + [name];
        rest := rest - {name};
      }
      assert page - rest == page;
    }

    /** GetMetadata: the whole map, or a refusal when it has outgrown the cap or a newer build wrote an entry. */
    method GetMetadata(u: string) returns (r: Outcome, data: map<string, GoValue>)
      ensures r == InvalidIdentifier <==> !ValidId(u)
      ensures r == ResultTooLarge <==> ValidId(u) && |Names(items, u)| > maxMetadataKeys
      ensures r == NewerVersion <==>
                ValidId(u) && |Names(items, u)| <= maxMetadataKeys
                && exists name :: name in Names(items, u) && items[Metadata(u, name)].version > SCHEMA_VERSION
      ensures r == Success <==> r != InvalidIdentifier && r != ResultTooLarge && r != NewerVersion
      ensures r == Success ==> data == View(items, u)
    {
      data := map[];
      if !ValidId(u) {
        return InvalidIdentifier, data;
      }
      var names := MetadataKeys(u);
      if names.None? {
        return ResultTooLarge, data;
      }
      var todo := names.value;
      for i := 0 to |todo|
        invariant forall j :: 0 <= j < i ==> todo[j] in Names(items, u) && items[Metadata(u, todo[j])].version <= SCHEMA_VERSION
        invariant forall name :: name in data <==> name in todo[..i]
        invariant forall name :: name in data ==> name in Names(items, u) && data[name] == Decode(items[Metadata(u, name)].value)
      {
        assert todo[i] in Names(items, u);
        if items[Metadata(u, todo[i])].version > SCHEMA_VERSION {
          return NewerVersion, map[];
        }
        data := data[todo[i] := Decode(items[Metadata(u, todo[i])].value)];
      }
      assert todo[..|todo|] == todo;
      return Success, data;
    }

    /** ClearMetadata: every entry of this user and nothing else, or a refusal past the cap; retried after a fault it completes. */
    method ClearMetadata(u: string) returns (r: Outcome)
      modifies this`items
      ensures r == InvalidIdentifier <==> !ValidId(u)
      ensures r == ResultTooLarge <==> ValidId(u) && |Names(old(items), u)| > maxMetadataKeys
      ensures r == InvalidIdentifier || r == ResultTooLarge ==> items == old(items)
      ensures r == Success ==> View(items, u) == map[]
      ensures forall k: ItemKey :: At(items, k) == At(old(items), k) || (k.Metadata? && k.user == u && k !in items)
      ensures r == InvalidIdentifier || r == ResultTooLarge || r == Success || r == StoreFault
    {
      if !ValidId(u) {
        return InvalidIdentifier;
      }
      var names := MetadataKeys(u);
      if names.None? {
        return ResultTooLarge;
      }
      var todo := names.value;
      var reqs := seq(|todo|, i requires 0 <= i < |todo| => DeleteItem(Metadata(u, todo[i])));
      ghost var before := items;
      var ok, done := BatchWrite(reqs);
      DeletesClear(before, items, reqs, done, u, todo);
      return if ok then Success else StoreFault;
    }
  }

  lemma OneApplied(before: Table, after: Table, reqs: seq<Request>, i: nat)
    requires i < |reqs|
    requires after == if reqs[i].PutItem? then before[reqs[i].key := reqs[i].item] else before - {reqs[i].key}
    ensures Applied(before, after, reqs, {i})
  {
    forall k | !Touches(reqs, {i}, k) ensures At(after, k) == At(before, k) {
      assert i in {i};
    }
  }
}
