/**
 The single table's key space (internal/store/dynamodb/keys.go): every item this
 store writes, the validators that guard its caller-supplied segments, and the
 two strings each item is addressed by.
 */
module Keys {
  import opened Bytes

  predicate IsAlphanumeric(c: char) {
    'A' <= c <= 'Z' || 'a' <= c <= 'z' || '0' <= c <= '9'
  }

  /** idPattern: one alphanumeric, then up to 63 of [A-Za-z0-9._-]. */
  predicate ValidId(s: string) {
    && 1 <= |s| <= 64
    && IsAlphanumeric(s[0])
    && forall i :: 0 <= i < |s| ==> IsAlphanumeric(s[i]) || s[i] == '.' || s[i] == '_' || s[i] == '-'
  }

  /** checkTenant: the empty tenant is refused only when tenants are in use. */
  predicate ValidTenant(multiTenant: bool, tenant: string) {
    if tenant == "" then !multiTenant else ValidId(tenant)
  }

  predicate HasControl(s: string) {
    exists i :: 0 <= i < |s| && (s[i] == '\0' || s[i] == '\n' || s[i] == '\r')
  }

  /** checkOpaque: the only variable segment of its key, so '#' is allowed. */
  predicate ValidOpaque(s: string, max: nat) {
    s != "" && |s| <= max && !HasControl(s)
  }

  const MAX_EMAIL_KEY_LEN := 320
  const MAX_API_KEY_PREFIX_LEN := 128
  const MAX_META_KEY_LEN := 256
  const MAX_SERVICE_ID_LEN := 256

  predicate ValidEmail(s: string) { ValidOpaque(s, MAX_EMAIL_KEY_LEN) }

  /** normalizeEmail on ASCII. */
  function Normalize(s: string): string { Lower(Trim(s)) }

  datatype TokenFamily = Reset | Magic | Verify | EmailChange

  datatype ItemKey =
    | Profile(tenant: string, user: string)
    | RoleAssignment(tenant: string, user: string, role: string)
    | Email(tenant: string, address: string)
    | Session(session: string)
    | SessionIndex(session: string)
    | Refresh(hash: string)
    | Member(tenant: string, user: string)
    | TenantEntry(tenant: string)
    | RoleDefinition(role: string)
    | Token(family: TokenFamily, hash: string)
    | LinkedAccount(provider: string, account: string)
    | LinkId(link: string)
    | PendingLink(state: string)
    | AuthCode(hash: string)
    | MailTemplate(template: string)
    | UiTranslation(page: string)
    | Settings
    | Metadata(user: string, name: string)
    | ApiKey(prefix: string)
    | KeyId(id: string)
    | Webhook(hook: string)
    | Telemetry(tenant: string, day: string, stamp: string, event: string)
    | RateLimit(scope: string, subject: string, window: int)

  /**
   The validators' guarantee for the segments of a key: a segment that something
   follows is '#'-free. Trailing segments are unconstrained here.
   */
  predicate ValidKey(k: ItemKey) {
    match k
    case Profile(tenant, user) => SEP !in tenant
    case RoleAssignment(tenant, user, role) => SEP !in tenant
    case Email(tenant, address) => SEP !in tenant
    case Member(tenant, user) => true
    case LinkedAccount(provider, account) => SEP !in provider
    case Telemetry(tenant, day, stamp, event) => SEP !in tenant && SEP !in stamp
    case RateLimit(scope, subject, window) => SEP !in scope
    case _ => true
  }

  lemma ValidIdHasNoSeparator(s: string)
    requires ValidId(s) || s == ""
    ensures SEP !in s && '\0' !in s
  {
    forall i | 0 <= i < |s| ensures s[i] != SEP && s[i] != '\0' {
      assert IsAlphanumeric(s[i]) || s[i] == '.' || s[i] == '_' || s[i] == '-';
    }
  }

  function FamilyPrefix(f: TokenFamily): string {
    match f
    case Reset => "RESET"
    case Magic => "MAGIC"
    case Verify => "VERIFY"
    case EmailChange => "ECHG"
  }

  /** kind + "#" + tail, the shape of every prefixed key string. */
  function Tagged(tag: string, tail: string): string { tag + [SEP] + tail }

  /** The partition key string of an item. */
  function PartitionKey(k: ItemKey): string {
    match k
    case Profile(tenant, user) => Tagged("USER", Tagged(tenant, user))
    case RoleAssignment(tenant, user, role) => Tagged("USER", Tagged(tenant, user))
    case Email(tenant, address) => Tagged("EMAIL", Tagged(tenant, address))
    case Session(session) => Tagged("SESSION", session)
    case SessionIndex(session) => Tagged("SESSION", session)
    case Refresh(hash) => Tagged("REFRESH", hash)
    case Member(tenant, user) => Tagged("TENANT", tenant)
    case TenantEntry(tenant) => "TENANTS"
    case RoleDefinition(role) => "ROLES"
    case Token(family, hash) => Tagged(FamilyPrefix(family), hash)
    case LinkedAccount(provider, account) => Tagged("OAUTH", Tagged(provider, account))
    case LinkId(link) => Tagged("LINKID", link)
    case PendingLink(state) => Tagged("PLINK", state)
    case AuthCode(hash) => Tagged("OIDC", hash)
    case MailTemplate(template) => "TEMPLATES"
    case UiTranslation(page) => "TEMPLATES"
    case Settings => "SETTINGS"
    case Metadata(user, name) => Tagged("USERMETA", user)
    case ApiKey(prefix) => Tagged("APIKEY", prefix)
    case KeyId(id) => Tagged("KEYID", id)
    case Webhook(hook) => "WEBHOOKS"
    case Telemetry(tenant, day, stamp, event) => Tagged("TEL", Tagged(tenant, day))
    case RateLimit(scope, subject, window) => Tagged("RL", Tagged(scope, Tagged(subject, FormatInt(window))))
  }

  /** The sort key string of an item. */
  function SortKey(k: ItemKey): string {
    match k
    case Profile(_, _) => "PROFILE"
    case RoleAssignment(_, _, role) => Tagged("ROLE", role)
    case Email(_, _) => "EMAIL"
    case Session(_) => "SESSION"
    case SessionIndex(_) => "SIDX"
    case Refresh(_) => "REFRESH"
    case Member(tenant, user) => Tagged("MEMBER", user)
    case TenantEntry(tenant) => Tagged("TENANT", tenant)
    case RoleDefinition(role) => Tagged("ROLE", role)
    case Token(_, _) => "TOKEN"
    case LinkedAccount(_, _) => "OAUTH"
    case LinkId(_) => "LINKID"
    case PendingLink(_) => "PLINK"
    case AuthCode(_) => "CODE"
    case MailTemplate(template) => Tagged("MAIL", template)
    case UiTranslation(page) => Tagged("UI", page)
    case Settings => "SETTINGS"
    case Metadata(_, name) => Tagged("META", name)
    case ApiKey(_) => "APIKEY"
    case KeyId(_) => "KEYID"
    case Webhook(hook) => Tagged("WHK", hook)
    case Telemetry(_, _, stamp, event) => Tagged(stamp, event)
    case RateLimit(_, _, _) => "RL"
  }

  /** strings.CutPrefix(s, tag + "#"), how every decoder inverts its constructor. */
  function Untag(tag: string, s: string): Option<string> {
    if |tag| < |s| && s[..|tag|] == tag && s[|tag|] == SEP then Some(s[|tag| + 1..]) else None
  }

  lemma UntagTagged(tag: string, tail: string)
    ensures Untag(tag, Tagged(tag, tail)) == Some(tail)
    ensures SEP !in tag ==> Cut(Tagged(tag, tail), SEP) == Some((tag, tail))
  {
    if SEP !in tag {
      CutJoined(tag, tail, SEP);
    }
  }

  /** Two tagged strings with '#'-free tags agree only part by part. */
  lemma TaggedInjective(tag: string, tail: string, tag': string, tail': string)
    requires SEP !in tag && SEP !in tag'
    ensures Tagged(tag, tail) == Tagged(tag', tail') <==> tag == tag' && tail == tail'
  {
    CutJoined(tag, tail, SEP);
    CutJoined(tag', tail', SEP);
  }

  /** The fixed first segment of a partition key. */
  function Head(k: ItemKey): (h: string)
    ensures SEP !in h
  {
    match k
    case Profile(_, _) => "USER"
    case RoleAssignment(_, _, _) => "USER"
    case Email(_, _) => "EMAIL"
    case Session(_) => "SESSION"
    case SessionIndex(_) => "SESSION"
    case Refresh(_) => "REFRESH"
    case Member(_, _) => "TENANT"
    case TenantEntry(_) => "TENANTS"
    case RoleDefinition(_) => "ROLES"
    case Token(family, _) => FamilyPrefix(family)
    case LinkedAccount(_, _) => "OAUTH"
    case LinkId(_) => "LINKID"
    case PendingLink(_) => "PLINK"
    case AuthCode(_) => "OIDC"
    case MailTemplate(_) => "TEMPLATES"
    case UiTranslation(_) => "TEMPLATES"
    case Settings => "SETTINGS"
    case Metadata(_, _) => "USERMETA"
    case ApiKey(_) => "APIKEY"
    case KeyId(_) => "KEYID"
    case Webhook(_) => "WEBHOOKS"
    case Telemetry(_, _, _, _) => "TEL"
    case RateLimit(_, _, _) => "RL"
  }

  /** The variable remainder of a partition key, None for the constant partitions. */
  function Tail(k: ItemKey): Option<string> {
    match k
    case Profile(tenant, user) => Some(Tagged(tenant, user))
    case RoleAssignment(tenant, user, _) => Some(Tagged(tenant, user))
    case Email(tenant, address) => Some(Tagged(tenant, address))
    case Session(session) => Some(session)
    case SessionIndex(session) => Some(session)
    case Refresh(hash) => Some(hash)
    case Member(tenant, _) => Some(tenant)
    case Token(_, hash) => Some(hash)
    case LinkedAccount(provider, account) => Some(Tagged(provider, account))
    case LinkId(link) => Some(link)
    case PendingLink(state) => Some(state)
    case AuthCode(hash) => Some(hash)
    case Metadata(user, _) => Some(user)
    case ApiKey(prefix) => Some(prefix)
    case KeyId(id) => Some(id)
    case Telemetry(tenant, day, _, _) => Some(Tagged(tenant, day))
    case RateLimit(scope, subject, window) => Some(Tagged(scope, Tagged(subject, FormatInt(window))))
    case _ => None
  }

  lemma PartitionKeySplits(k: ItemKey)
    ensures PartitionKey(k) == if Tail(k).Some? then Tagged(Head(k), Tail(k).value) else Head(k)
  {
  }

  /** Equal partition keys share head and tail. */
  lemma PartitionKeyParts(k: ItemKey, k': ItemKey)
    requires PartitionKey(k) == PartitionKey(k')
    ensures Head(k) == Head(k') && Tail(k) == Tail(k')
  {
    PartitionKeySplits(k);
    PartitionKeySplits(k');
    if Tail(k).Some? {
      CutJoined(Head(k), Tail(k).value, SEP);
    }
    if Tail(k').Some? {
      CutJoined(Head(k'), Tail(k').value, SEP);
    }
  }

  /** A rate-limit partition names its scope, subject and window unambiguously. */
  lemma RateLimitTailInjective(scope: string, subject: string, w: int, scope': string, subject': string, w': int)
    requires SEP !in scope && SEP !in scope'
    requires Tagged(scope, Tagged(subject, FormatInt(w))) == Tagged(scope', Tagged(subject', FormatInt(w')))
    ensures scope == scope' && subject == subject' && w == w'
  {
    TaggedInjective(scope, Tagged(subject, FormatInt(w)), scope', Tagged(subject', FormatInt(w')));
    FormatIntParses(w);
    FormatIntParses(w');
    CutLastJoined(subject, FormatInt(w), SEP);
    CutLastJoined(subject', FormatInt(w'), SEP);
  }

  /** The kinds that share a partition are told apart by their sort keys' first byte. */
  lemma SortKeyInitial(k: ItemKey)
    requires SharesItsPartition(k)
    ensures SortKey(k) != ""
    ensures SortKey(k)[0] == if k.Profile? then 'P' else if k.RoleAssignment? then 'R' else if k.MailTemplate? then 'M' else 'U'
  {
  }

  predicate SharesItsPartition(k: ItemKey) { k.Profile? || k.RoleAssignment? || k.MailTemplate? || k.UiTranslation? }

  /** Kinds that lie in one partition are told apart by their sort keys. */
  lemma SharedPartitionInjective(k: ItemKey, k': ItemKey)
    requires SharesItsPartition(k) && ValidKey(k) && ValidKey(k')
    requires Head(k) == Head(k') && Tail(k) == Tail(k') && SortKey(k) == SortKey(k')
    ensures k == k'
  {
    SortKeyInitial(k);
    SortKeyInitial(k');
    match k
    case Profile(tenant, user) =>
      TaggedInjective(tenant, user, k'.tenant, k'.user);
    case RoleAssignment(tenant, user, role) =>
      TaggedInjective(tenant, user, k'.tenant, k'.user);
      TaggedInjective("ROLE", role, "ROLE", k'.role);
    case MailTemplate(template) =>
      TaggedInjective("MAIL", template, "MAIL", k'.template);
    case UiTranslation(page) =>
      TaggedInjective("UI", page, "UI", k'.page);
  }

  /** Kinds whose sort key holds an identifier of its own. */
  predicate NamedBySortKey(k: ItemKey) {
    k.Member? || k.TenantEntry? || k.RoleDefinition? || k.Metadata? || k.Webhook? || k.Telemetry?
  }

  lemma NamedBySortKeyInjective(k: ItemKey, k': ItemKey)
    requires NamedBySortKey(k) && ValidKey(k) && ValidKey(k')
    requires Head(k) == Head(k') && Tail(k) == Tail(k') && SortKey(k) == SortKey(k')
    ensures k == k'
  {
    match k
    case Member(_, user) => TaggedInjective("MEMBER", user, "MEMBER", k'.user);
    case TenantEntry(tenant) => TaggedInjective("TENANT", tenant, "TENANT", k'.tenant);
    case RoleDefinition(role) => TaggedInjective("ROLE", role, "ROLE", k'.role);
    case Metadata(_, name) => TaggedInjective("META", name, "META", k'.name);
    case Webhook(hook) => TaggedInjective("WHK", hook, "WHK", k'.hook);
    case Telemetry(tenant, day, stamp, event) =>
      TaggedInjective(tenant, day, k'.tenant, k'.day);
      TaggedInjective(stamp, event, k'.stamp, k'.event);
  }

  /**
   No two items share an address: distinct kinds never collide, and within a kind
   the identifiers are recovered from the strings.
   */
  lemma KeysJointlyInjective(k: ItemKey, k': ItemKey)
    requires ValidKey(k) && ValidKey(k')
    requires PartitionKey(k) == PartitionKey(k') && SortKey(k) == SortKey(k')
    ensures k == k'
  {
    PartitionKeyParts(k, k');
    if SharesItsPartition(k) {
      SharedPartitionInjective(k, k');
    } else if NamedBySortKey(k) {
      NamedBySortKeyInjective(k, k');
    } else {
      PartitionNamesTheItem(k, k');
    }
  }

  lemma PartitionNamesTheItem(k: ItemKey, k': ItemKey)
    requires !SharesItsPartition(k) && !NamedBySortKey(k) && ValidKey(k) && ValidKey(k')
    requires Head(k) == Head(k') && Tail(k) == Tail(k') && SortKey(k) == SortKey(k')
    ensures k == k'
  {
    match k
    case Email(tenant, address) => TaggedInjective(tenant, address, k'.tenant, k'.address);
    case LinkedAccount(provider, account) => TaggedInjective(provider, account, k'.provider, k'.account);
    case RateLimit(scope, subject, window) => RateLimitTailInjective(scope, subject, window, k'.scope, k'.subject, k'.window);
    case _ =>
  }

  predicate HasPrefix(s: string, prefix: string) {
    |prefix| <= |s| && s[..|prefix|] == prefix
  }

  /** userGSI1SK: the admin directory's sort key. */
  function UserDirectorySk(tenant: string, user: string): string { Tagged(tenant, user) }

  /** begins_with(tenant + "#") selects exactly that tenant's users, whatever their ids hold. */
  lemma TenantPrefixSelectsTenant(tenant: string, other: string, user: string)
    requires SEP !in tenant && SEP !in other
    ensures HasPrefix(UserDirectorySk(other, user), tenant + [SEP]) <==> other == tenant
  {
    var sk := UserDirectorySk(other, user);
    if HasPrefix(sk, tenant + [SEP]) {
      assert sk == Tagged(tenant, sk[|tenant| + 1..]);
      TaggedInjective(other, user, tenant, sk[|tenant| + 1..]);
    }
  }

  const SEP_SUCCESSOR := '$'

  /**
   The upper bound of a range over "<fixed-width head>#<tail>": it lies above every
   key with that head and below every key with a larger head of the same width.
   */
  lemma SuccessorBoundsRange(bound: string, head: string, tail: string)
    requires |bound| == |head|
    ensures Less(Tagged(head, tail), bound + [SEP_SUCCESSOR]) <==> !Less(bound, head)
    ensures !Less(Tagged(head, tail), bound) <==> !Less(head, bound)
  {
    LessByHead(head, [SEP] + tail, bound, [SEP_SUCCESSOR]);
    assert Tagged(head, tail) == head + ([SEP] + tail);
    LessByHead(head, [SEP] + tail, bound, "");
    assert bound + "" == bound;
    LessTotal(bound, head);
    LessIrreflexive(bound);
    if Less(bound, head) && Less(head, bound) {
      LessTransitive(bound, head, bound);
    }
  }

  /** Unvalidated, a '#' in a tenant makes two users one item. */
  lemma SeparatorInATenantCollides()
    ensures var k, k' := Profile("a#b", "c"), Profile("a", "b#c");
            k != k' && PartitionKey(k) == PartitionKey(k') && SortKey(k) == SortKey(k') && ValidKey(k') && !ValidKey(k)
  {
    assert "a#b" + [SEP] + "c" == "a" + [SEP] + "b#c";
    assert "a#b"[1] == SEP;
  }
}
