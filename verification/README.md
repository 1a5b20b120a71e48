# A verified model of awesome-lambda-auth

awesome-lambda-auth runs an authentication service in AWS Lambda over one DynamoDB table. Many
execution environments run its methods at the same time, without locks: what keeps the data whole
is the conditions on single writes, the order of steps, and the shape of the keys. This project
models that logic in Dafny and proves what the code relies on.

A `char` stands for one byte. The table is a map from item keys to items. In the two protocol modules
and the two seeding modules every DynamoDB call is one atomic step, a method in flight is a program
counter, and the theorems are about every run: every sequence of steps of any number of calls. The
methods themselves are classes over a table field (`EmailStore`, `ApiKeyStore`, `MetadataStore`,
`CognitoImport`, `TemplateSeeds`, ...) and each is tied to the atomic functions the runs are made of.

| file | what it models |
|---|---|
| `Bytes.dfy` | bytewise order, padded and plain decimal text, ASCII case and blanks, cutting at a separator |
| `Arithmetic.dfy` | the int64 range, products and quotients |
| `Keys.dfy` | the key space: validators, key constructors, their inverses |
| `Stamps.dfy` | timestamps as text: `formatTime`, the descending stamp, the civil calendar |
| `EmailChange.dfy`, `EmailStore.dfy` | address uniqueness under creation, change and deletion of users |
| `ApiKeys.dfy`, `ApiKeyStore.dfy` | API key records and pointers, revocation, the last-used throttle |
| `RateLimit.dfy`, `RateLimitSubject.dfy` | the in-process limiter in front of the shared counter, and what a request is limited by |
| `Doubles.dfy`, `AnyValue.dfy` | integers in a float64; the value codec |
| `MetadataStore.dfy` | one item per metadata key: merge, read, clear, batches, the cap |
| `EditDistance.dfy` | the rolling-row edit distance and the hint built on it |
| `CognitoImport.dfy` | the resumable user pool import |
| `Histories.dfy` | patches in the order they landed: which edit and which seed of a key stand |
| `RuntimeSettings.dfy`, `TemplateSeeds.dfy` | seeding settings and templates against administrators' edits |
| `RequestUrl.dfy`, `Headers.dfy`, `RequestHeaders.dfy`, `ResponseHeaders.dfy` | event paths and headers |
| `CorrelationId.dfy` | truncating and forwarding the correlation id |
| `Durations.dfy` | time spans in "ms" syntax |

## Where the code does something else than it says

- `Revoke`, `UpdateLastUsed` and `FindByID` make their second call on the condition that some record
  exists at the prefix, not that it is still the key they resolved. While that key exists they meet its
  record and no other (`WriteLandsOnItsOwnRecord`). Afterwards they meet the next holder of the prefix:
  a revocation deactivates it exactly when it is active (`RevokeHitsAnotherKeyIff`), a touch stamps it
  exactly when its throttle allows (`TouchHitsAnotherKeyIff`), and FindByID answers with it
  (`FindAnswersItsOwnRecordIff`). `RevokeMayHitAReusedPrefix` is such a run.
- `DeleteUser` is a read followed by separate deletes. `Harmless` is the exact condition on a step for
  profiles and address items to stay in step, up to what is about to be deleted (`NextKeepsInvIff`,
  `InvThroughoutIff`). Overlapping an address change of the same user, or another deletion of the same
  user, it frees another user's address item (`OverlappingDeleteSharesAnAddress`,
  `OverlappingDeletionsShareAnAddress`). Abandoned between the profile and the address item it strands
  the address for good: no run of creations, changes and deletions frees it, and no user can take it
  (`AbandonedDeletionStrands`, `StrandedForGood`, `StrandedIsRefused`).
- The rate limiter's file comment says a local refusal is always one the shared counter would make. It
  needs that no counter call failed in the window; `FailuresMakeRefusalsEarly` shows how far off it is otherwise.
- `maxMetadataKeys` is said to bound a user's metadata. Only the calls that drain the listing look at it. An accepted
  update passes it exactly when the keys there and the keys it carries are more than it allows
  (`MergePassesTheCapIff`, `PutsPassTheCapIff`), and the map can then be neither read nor cleared, nor
  its user deleted, ever again (`PastTheCapForGood`, `PastTheCapNothingStarts`).
- The value codec says an integer beyond 2^53 is refused rather than stored inexactly. As a `json.Number`
  it is stored as it came, and read back rounded unless it has a 53-bit significand
  (`JsonNumberSurvivesIff`, `JsonNumberLosesAnInteger`).
- The import counts a record as existing when the store says so. With a random id that is another user's
  the record is then nowhere: `LosesARecordIff` is the exact condition.
- Cold starts are said not to move what is there, but for an edit that races one. A seed's read and its write are two calls. The last edit
  of a key, or before any edit its first seed, stands exactly when it landed inside no window of another
  seed of the key (`TheLastEditStands`, `TheFirstSeedStands`, for settings and for templates);
  `AnEditInsideTheWindowIsUndone` and `OverlappingSeedsLastWins` are runs in which it does not.
- `seedTemplates` says its second pass stops only on a store failure. A file name the store's id pattern
  refuses, an empty translation key or an oversized item stops it too, with earlier templates already
  pinned (`AValidatedDirectoryCanBeHalfWritten`; `SecondPassCompletesIff` is the exact condition).
- The typo hint is given by the nearest key alone. A key within its own tolerance gets no hint when
  a shorter one that is as near comes first and is not (`ANearKeyCanBeMissed`; `NearKeyIsMissedIff` is
  the exact condition).
- A duration read as a plain integer is written back as a quoted string and re-read through a float
  multiplication, so it survives exactly when its nanoseconds fit int64 and a 53-bit significand. Beyond
  int64 already the first reading is another span, with no error (`IntegerSurvivesIff`). An unset duration
  comes back with an error (`UnsetDoesNotSurvive`).
- `stripStagePrefix` keeps Path and RawPath in step for every prefix, also one with percent signs in it:
  `RequestPathsAgree` needs no hypothesis on the prefix.

## Model

| member | source | states |
|---|---|---|
| `Keys.KeysJointlyInjective` | internal/store/dynamodb/keys.go:443-551 | no two items of any kinds share a partition and sort key string, given the validators' '#'-free segments |
| `Keys.SeparatorInATenantCollides` | internal/store/dynamodb/keys.go:312-361 | without the segment validators two users' items have one key |
| `Keys.UntagTagged` | internal/store/dynamodb/keys.go:486-522 | each CutPrefix decoder inverts its constructor, and the prefix can be cut off again |
| `Keys.RateLimitTailInjective` | internal/store/dynamodb/rate_limit.go:275-288 | a rate-limit partition key names scope, subject and window, although subjects may hold '#' |
| `Keys.ValidIdHasNoSeparator` | internal/store/dynamodb/keys.go:343-361 | an id or tenant that passes the pattern holds neither '#' nor NUL |
| `Keys.TenantPrefixSelectsTenant` | internal/store/dynamodb/keys.go:463-482 | begins_with(tenant#) on the user directory selects exactly that tenant's users |
| `Keys.SuccessorBoundsRange` | internal/store/dynamodb/keys.go:25-37 | prefix$ is a strict upper bound of every prefix#tail and of nothing with a larger equally wide prefix |
| `Stamps.SaturationIsMonotone` | internal/store/dynamodb/item.go:66-82 | the saturating nanosecond count keeps the order of instants and is exact inside int64 |
| `Stamps.DescendingStampOrder` | internal/store/dynamodb/item.go:39-64 | the 19-digit complement sorts bytewise in exactly descending order of the saturated count |
| `Stamps.DirectoryOrder` | internal/store/dynamodb/api_keys.go:563-565 | the API key directory sorts by creation descending, then by id ascending |
| `Stamps.UnsetCreationSortsLast` | internal/store/dynamodb/item.go:66-82 | records without a creation instant, or from before 1970, sort after all later ones |
| `Stamps.FormatTimeOrder` | internal/store/dynamodb/item.go:14-23 | for years 0000 to 9999 bytewise order of the stored text is chronological order |
| `Stamps.FormatTimeInjective` | internal/store/dynamodb/item.go:14-23 | a stored stamp names one instant |
| `Stamps.FirstOfJanuary` | internal/store/dynamodb/item.go:14-23 | the civil calendar behind the text agrees with the leap-year rule in every year |
| `Stamps.EpochIs1970` | internal/store/dynamodb/item.go:14-23 | day zero of Unix time is the first of January of 1970 |
| `EmailChange.EveryRunKeepsInv` | internal/store/dynamodb/feature_tokens.go:153-302 | in every interleaving of creations, changes, overlapping deletions and abandoned calls whose steps are harmless, address items and profiles stay in bijection up to what sweeps are about to delete, and outright once no sweep is in flight |
| `EmailChange.NextKeepsInvIff` | internal/store/dynamodb/users.go:573-669 | a step keeps that exactly when it is harmless: it creates a pair all or none of which is about to be swept, moves an address only within such places, reads no profile for a second sweep whose address is another user's by now, and lets go of no half pair |
| `EmailChange.InvThroughoutIff` | internal/store/dynamodb/users.go:573-669 | and the bijection up to pending deletes holds at every moment of a run exactly when every step is harmless |
| `EmailChange.EveryRunKeepsBijection` | internal/store/dynamodb/feature_tokens.go:194-294 | without deletions the bijection holds outright after every step of every run |
| `EmailChange.ChangeAppliesOnlyThePendingAddress` | internal/store/dynamodb/feature_tokens.go:194-294 | in any run, deletions overlapping or not, a commit that succeeds applies the address pending now, clears it, ends the lookup of its old address and moves no other lookup |
| `EmailChange.ChangeTakesAnAddressIff` | internal/store/dynamodb/feature_tokens.go:219-294 | over harmless steps, deletions of one user overlapping or not, the address item it deletes unconditionally is the user's own unless the profile is being swept, and another holder's exactly when the profile is and that item is not |
| `EmailChange.CommitEffect` | internal/store/dynamodb/feature_tokens.go:219-294 | the unconditional delete of the old address item hits the user's own item; every other item is untouched |
| `EmailChange.RefusalsAreExact` | internal/store/dynamodb/feature_tokens.go:219-294 | each refusal of the transaction has exactly its own cause and changes nothing |
| `EmailChange.IssuedChangeApplies` | internal/store/dynamodb/tokens.go:123-223 | from issued token to commit: the token works once, the address issued with it is the one applied, the old one is free |
| `EmailChange.ClearedChangeIsGone` | internal/store/dynamodb/tokens.go:411-441 | clearing kills the token and the pending address together |
| `EmailChange.LoginFindsTheHolder` | internal/store/dynamodb/users.go:460-483 | lookup by address finds a user if and only if that user's profile carries the address |
| `EmailChange.AddressesAreUnique` | internal/store/dynamodb/users.go:384-455 | two users of a tenant never hold one address |
| `EmailChange.ReachableAddressesAreUnambiguous` | internal/store/dynamodb/keys.go:443-453 | in the table of any run whatever distinct items have distinct key strings |
| `EmailChange.EveryRunKeepsKeysValid` | internal/store/dynamodb/keys.go:312-361 | no run writes a key with an unvalidated segment |
| `EmailChange.DeleteTakesNoHoldersAddress` | internal/store/dynamodb/users.go:573-669 | over harmless steps, deletions of one user overlapping or not, no sweep holds the address item of a profile that no sweep is about to delete |
| `EmailChange.OverlappingDeleteSharesAnAddress` | internal/store/dynamodb/users.go:573-669 | a run in which a sweep overlapping an address change leaves two users with one address |
| `EmailChange.OverlappingDeletionsShareAnAddress` | internal/store/dynamodb/users.go:573-669 | a run in which the second of two deletions of one user deletes the address item of the next holder; the step that is not harmless is that holder's registration |
| `EmailChange.HalfSweptAddressIsStranded` | internal/store/dynamodb/users.go:573-669 | an abandoned sweep strands its address exactly when it lets the address item go and no profile carries the address |
| `EmailChange.StrandedForGood` | internal/store/dynamodb/users.go:573-669 | in every run of creations, changes and deletions a stranded address stays stranded |
| `EmailChange.StrandedIsRefused` | internal/store/dynamodb/users.go:384-455 | as long as it is, registering with it and changing to it are refused, and login by it finds nobody unless the deleted id is registered again |
| `EmailChange.AbandonedDeletionStrands` | internal/store/dynamodb/users.go:573-669 | a run that strands an address: read, delete the profile, fail |
| `EmailStore.Store.UpdateEmailChangeToken` | internal/store/dynamodb/feature_tokens.go:153-160 | validates, then writes token, expiry and pending address together or nothing |
| `EmailStore.Store.ClearEmailChangeToken` | internal/store/dynamodb/feature_tokens.go:300-302 | the table afterwards is the cleared one, or unchanged with the error |
| `EmailStore.Store.CreateUser` | internal/store/dynamodb/users.go:384-455 | creates profile, address item and membership if address and id are free, else changes nothing |
| `EmailStore.Store.ApplyEmailChange` | internal/store/dynamodb/feature_tokens.go:194-294 | run alone it succeeds exactly when a usable, different and free address is pending, and keeps the bijection |
| `EmailStore.Store.CommitChange` | internal/store/dynamodb/feature_tokens.go:219-294 | the three conditional writes are one atomic function of the table |
| `ApiKeys.EveryRunKeepsBijection` | internal/store/dynamodb/api_keys.go:144-382 | pointer[id] = p if and only if the record at p has key id, in every interleaving of saves, revocations, touches and deletes |
| `ApiKeys.DeleteKeepsBijectionIff` | internal/store/dynamodb/api_keys.go:350-382 | removing record and pointer together is right exactly when the pointer still names that record |
| `ApiKeys.DropKeepsBijectionIff` | internal/store/dynamodb/api_keys.go:366-382 | dropping a pointer alone is right exactly when there is none |
| `ApiKeys.DeleteSparesOtherIds` | internal/store/dynamodb/api_keys.go:350-382 | no Delete removes another id's record, even after its prefix was reused |
| `ApiKeys.EveryFreshRunKeepsInv` | internal/store/dynamodb/api_keys.go:144-382 | with ids never saved twice, everything in flight points at its own record or at nothing of its id |
| `ApiKeys.RevokedKeyNeverAuthenticates` | internal/store/dynamodb/api_keys.go:205-288 | once a Revoke begun after the Save has reported success, no later lookup of any run returns the key |
| `ApiKeys.RevokedIsNotFound` | internal/store/dynamodb/api_keys.go:205-226 | no reachable state finds a key that was reported revoked |
| `ApiKeys.WriteLandsOnItsOwnRecord` | internal/store/dynamodb/api_keys.go:235-331 | over any run with fresh ids, the second call of a Revoke, an UpdateLastUsed or a FindByID meets its own key's record exactly as long as the key has not been deleted |
| `ApiKeys.RevokeHitsAnotherKeyIff` | internal/store/dynamodb/api_keys.go:262-288 | a revocation's write deactivates another key exactly when its own is gone and an active one has its prefix |
| `ApiKeys.TouchHitsAnotherKeyIff` | internal/store/dynamodb/api_keys.go:304-331 | a touch stamps another key exactly when its own is gone and the next holder's throttle allows it |
| `ApiKeys.FindAnswersItsOwnRecordIff` | internal/store/dynamodb/api_keys.go:235-251 | between the two reads of a FindByID anything may run: it answers its own record exactly while the key exists, another key's exactly when its prefix was reused |
| `ApiKeys.RevokeMayHitAReusedPrefix` | internal/store/dynamodb/api_keys.go:262-288 | a run, from a state every hypothesis holds of, in which a revocation deactivates the next holder of its prefix |
| `ApiKeys.TouchIsThrottled` | internal/store/dynamodb/api_keys.go:304-331 | the text comparison admits a write only more than sixty seconds after the stored stamp |
| `ApiKeys.EveryRunSpacesStamps` | internal/store/dynamodb/api_keys.go:304-331 | over any run, with any instants, one key's stamps increase by more than sixty seconds each time |
| `ApiKeys.WritesAreBounded` | internal/store/dynamodb/api_keys.go:304-331 | at most floor(T / 60) + 1 writes whose instants span T seconds |
| `ApiKeyStore.Store.Save` | internal/store/dynamodb/api_keys.go:144-188 | both items or neither, never over a taken prefix or id |
| `ApiKeyStore.Store.FindById` | internal/store/dynamodb/api_keys.go:235-251 | finds the record whatever its state, exactly when the pointer resolves |
| `ApiKeyStore.Store.Revoke` | internal/store/dynamodb/api_keys.go:262-288 | deactivates the resolved record; an unknown id is success and changes nothing |
| `ApiKeyStore.Store.UpdateLastUsed` | internal/store/dynamodb/api_keys.go:304-331 | writes the stamp if the throttle allows it, reports success either way |
| `ApiKeyStore.Store.Delete` | internal/store/dynamodb/api_keys.go:350-382 | removes record and pointer, or the pointer alone when the prefix is another key's |
| `RateLimit.EveryRunKeepsInv` | cmd/auth/ratelimit.go:410-586 | over any run each local count is covered by the shared counter, the failures and the request in flight |
| `RateLimit.InitialIsOk` | cmd/auth/ratelimit.go:393-404 | a deployment that has not served a request satisfies the invariant |
| `RateLimit.LocalRefusalIsSound` | cmd/auth/ratelimit.go:108-115 | a local refusal means the shared counter is within this environment's counter failures of its budget, at it when there were none, across environments and window boundaries |
| `RateLimit.FullTablePassesThrough` | cmd/auth/ratelimit.go:410-446 | a full local table never refuses a subject it does not track |
| `RateLimit.AdmissionPerWindow` | cmd/auth/ratelimit.go:501-586 | at most the budget plus one per counter failure passes in a window |
| `RateLimit.AdmissionPerInterval` | cmd/auth/ratelimit.go:501-586 | in any interval one window long the counter accepts at most twice the budget, and at most that and one per counter failure of the interval passes |
| `RateLimit.AdmissionPerEnvironment` | cmd/auth/ratelimit.go:410-446 | with the counter failing arbitrarily one environment passes a tracked subject at most the budget per window |
| `RateLimit.FailuresMakeRefusalsEarly` | cmd/auth/ratelimit.go:545-586 | for every number of failures a run refuses locally with the shared counter exactly that far below its budget |
| `RateLimit.RetryAfterReachesTheWindowEnd` | cmd/auth/ratelimit.go:204-215 | waiting Retry-After lands in a later window and is at least one second (section 10.2.3 of RFC 9110) |
| `RateLimit.RetryAfterWithinTheWindowIff` | cmd/auth/ratelimit.go:591-599 | the wait is at most one window exactly when the clock is not before 1970, or on a window boundary before it |
| `RateLimit.WindowIndexMonotone` | internal/store/dynamodb/rate_limit.go:275-282 | window numbers follow the clock |
| `RateLimit.LocalRateLimiter.Allow` | cmd/auth/ratelimit.go:410-446 | the table after a request, and the verdict, as one function of the table before |
| `RateLimitSubject.Body.Peek` | cmd/auth/ratelimit.go:685-705 | the look returns the first 8 KiB, or nothing of a body that fails, and the handler reads the body as if it had never been taken |
| `RateLimitSubject.RateLimitSubject` | cmd/auth/ratelimit.go:616-649 | the subject of the first source that yields one, else the address, with the body unchanged |
| `RateLimitSubject.SubjectIsBounded` | cmd/auth/ratelimit.go:651-678 | every subject is the address or one the counter accepts, and nothing beyond the look decides it |
| `EditDistance.Compute` | internal/config/load.go:378-396 | the two swapped rows compute the distance |
| `EditDistance.DistanceIsShortestScript` | internal/config/load.go:378-396 | that number is the cost of a cheapest insert/delete/substitute script between the strings |
| `EditDistance.NoCheaperScript` | internal/config/load.go:378-396 | no edit script is cheaper |
| `EditDistance.DistanceIsAMetric` | internal/config/load.go:378-396 | zero exactly on equal strings, symmetric, triangle inequality |
| `EditDistance.NearestHint` | internal/config/load.go:361-376 | the first of the keys at the least distance, if it is not empty and within a third of the longer name; otherwise none |
| `EditDistance.HintsAreNearest` | internal/config/load.go:361-376 | a hint is one of the keys, within its own tolerance, and no key is nearer |
| `EditDistance.NearKeyIsMissedIff` | internal/config/load.go:361-376 | a key within its tolerance gets no hint exactly when the first nearest key is empty or beyond its own, which takes a shorter one |
| `EditDistance.ANearKeyCanBeMissed` | internal/config/load.go:361-376 | two keys as near as each other: the shorter is taken and refused, the other is never offered |
| `Doubles.MaxExactIntIsTheBound` | internal/store/dynamodb/anyvalue.go:60-63 | 2^53 is the largest bound up to which no integer is lost in a float64 |
| `Doubles.MaxExactIntIsPow2` | internal/store/dynamodb/anyvalue.go:60-63 | the constant is two to the significand's width |
| `Doubles.ExactIffRepresentable` | internal/store/dynamodb/anyvalue.go:44-63 | a float64 keeps exactly the integers that are a 53-bit significand times a power of two |
| `AnyValue.EncodeFailsIff` | internal/store/dynamodb/anyvalue.go:66-174 | the whole encode fails exactly when a refused value, an integer beyond the accepted bound among them, occurs anywhere in it |
| `AnyValue.RoundTrip` | internal/store/dynamodb/anyvalue.go:176-226 | decoding an encoded value gives it back, integers as floats and every number exact |
| `AnyValue.JsonRoundTrip` | internal/store/dynamodb/anyvalue.go:66-226 | a JSON document that encodes reads back unchanged |
| `AnyValue.EncodeAgain` | internal/store/dynamodb/anyvalue.go:66-226 | storing what was read changes nothing |
| `AnyValue.JsonNumberSurvivesIff` | internal/store/dynamodb/anyvalue.go:89-90 | an integer given as a json.Number is always accepted, and reads back equal exactly when it is a 53-bit significand times a power of two |
| `AnyValue.JsonNumberLosesAnInteger` | internal/store/dynamodb/anyvalue.go:44-63 | 2^53 + 1 is refused as an integer, and as a json.Number reads back one less |
| `AnyValue.Measure` | internal/store/dynamodb/item.go:248-290 | the size accumulated over lists and maps is the same in every order a map is ranged over |
| `MetadataStore.Store.UpdateMetadata` | internal/store/dynamodb/metadata.go:135-162 | a refusal names an entry at fault and writes nothing; success is exactly the merge; a fault leaves each entry new or as it was |
| `MetadataStore.Store.GetMetadata` | internal/store/dynamodb/metadata.go:97-116 | answers the user's whole map, with the exact condition of each refusal |
| `MetadataStore.Store.ClearMetadata` | internal/store/dynamodb/metadata.go:168-180 | removes every entry of the user and nothing else, or is refused past the cap |
| `MetadataStore.Store.MetadataKeys` | internal/store/dynamodb/paging.go:30-47 | draining the pages lists every key once, or refuses exactly past the cap |
| `MetadataStore.Store.BatchWrite` | internal/store/dynamodb/paging.go:272-293 | success means every request was carried out; failure that some set of them was and nothing else |
| `MetadataStore.MergeIsOverride` | internal/store/dynamodb/metadata.go:97-162 | reading after a merge is map override by the merged values as JSON |
| `MetadataStore.MergeIsConfined` | internal/store/dynamodb/metadata.go:135-162 | no other user's map and no other item notices |
| `MetadataStore.LastLandingWins` | internal/store/dynamodb/metadata.go:119-162 | whatever puts interleave and repeat, each key holds its own last put |
| `MetadataStore.DisjointMergesCommute` | internal/store/dynamodb/metadata.go:119-162 | concurrent merges on disjoint keys leave one table whatever the order of their puts |
| `MetadataStore.ConcurrentMergesRead` | internal/store/dynamodb/metadata.go:97-162 | and that table reads as all the merges together |
| `MetadataStore.RetryCompletesTheMerge` | internal/store/dynamodb/metadata.go:119-134 | retrying a merge that a fault cut short reads as if the first call had succeeded |
| `MetadataStore.PastTheCapForGood` | internal/store/dynamodb/metadata.go:60-76 | a map past the cap only grows over any run of updates, clears and deletions of users |
| `MetadataStore.PastTheCapNothingStarts` | internal/store/dynamodb/users.go:650-669 | in all of them neither ClearMetadata nor DeleteUser of that user begins to delete |
| `MetadataStore.MergePassesTheCapIff` | internal/store/dynamodb/metadata.go:135-162 | an accepted merge takes the map past the cap exactly when the keys there and the keys it carries are more than the cap |
| `MetadataStore.MergeNames` | internal/store/dynamodb/metadata.go:135-162 | a merge names exactly what was named and what it carries |
| `MetadataStore.PutsPassTheCapIff` | internal/store/dynamodb/metadata.go:119-162 | over any interleaving of the puts of any number of merges, with nothing clearing the map, the same of all their keys together |
| `CognitoImport.EveryRecordIsReadOnce` | cmd/migrate/cognito.go:286-331 | any chain of interrupted runs resumed from the reported token reads the pool exactly once |
| `CognitoImport.RunReadsAStretch` | cmd/migrate/cognito.go:286-331 | a run reads the contiguous stretch from its token to the token it reports |
| `CognitoImport.TallyIsConserved` | cmd/migrate/cognito.go:267-280 | read = written + existing + without address + failed |
| `CognitoImport.ImportExtends` | cmd/migrate/cognito.go:337-367 | with fresh ids, no row that was there changes, and every new item belongs to an imported record |
| `CognitoImport.EveryRecordIsAccountedFor` | cmd/migrate/cognito.go:337-367 | with fresh ids, every record read is under its address in the store or named in the summary |
| `CognitoImport.ChainAccountsForThePool` | cmd/migrate/cognito.go:286-367 | over the runs of a completed chain, with fresh ids: what was there is unchanged, the summaries together count every record of the pool once, and each is under its address or named |
| `CognitoImport.SummariesAddUp` | cmd/migrate/cognito.go:286-331 | the summaries of any list of resumed runs, each over the table the one before left, add up to one uninterrupted import, and the tables agree |
| `CognitoImport.RunsCompose` | cmd/migrate/cognito.go:286-331 | two runs in a row import what one would, and their summaries add up |
| `CognitoImport.RerunChangesNothing` | cmd/migrate/cognito.go:352-362 | importing again what is there writes nothing |
| `CognitoImport.ImportKeepsBijection` | cmd/migrate/cognito.go:337-367 | an import keeps address items and profiles in bijection |
| `CognitoImport.TakenIdLosesARecord` | cmd/migrate/cognito.go:352-362 | with an id that is taken a record is counted as present and is nowhere |
| `CognitoImport.LosesARecordIff` | cmd/migrate/cognito.go:352-362 | that happens exactly when the store answers, id and address are valid, the id is taken and the address is free |
| `CognitoImport.ImportUser` | cmd/migrate/cognito.go:337-367 | exactly one counter or list grows, by the record's fate |
| `CognitoImport.ImportAll` | cmd/migrate/cognito.go:286-331 | the summary, the store and the resume token of a run are those of the records it read |
| `RequestUrl.RequestPathsAgree` | internal/lambdahttp/request.go:258-333 | for every event path and every stage prefix the path is rooted and RawPath is empty or decodes to exactly Path (section 2.1 of RFC 3986) |
| `RequestUrl.SharedPrefixIsPlain` | internal/lambdahttp/request.go:304-322 | a prefix that both forms of a path begin with decodes to itself |
| `RequestUrl.StrippingCutsThePrefix` | internal/lambdahttp/request.go:304-333 | only the prefix is cut off, at a segment boundary |
| `RequestUrl.RequestLineNamesThePath` | internal/lambdahttp/request.go:252-285 | the rendered request line decodes to the routed path, and keeps an unstripped encoded path byte for byte |
| `RequestUrl.EscapeDecodes` | internal/lambdahttp/request.go:252-257 | the default escaping of a path decodes back to it |
| `RequestUrl.BuildUrl` | internal/lambdahttp/request.go:258-285 | the pair built from an event path |
| `RequestUrl.StripStagePrefix` | internal/lambdahttp/request.go:304-322 | the pair after stripping, and that it still agrees |
| `RequestUrl.StagePrefixFor` | internal/lambdahttp/request.go:290-300 | a rooted prefix without a trailing slash, or none; never the default stage |
| `Headers.CanonicalIgnoresCase` | internal/lambdahttp/response.go:110-124 | two header names meet under one canonical name exactly when they differ only in case |
| `Headers.SortedOnce` | internal/lambdahttp/response.go:110-124 | a key set has one sorted listing, so ranging over it is settled |
| `RequestHeaders.SplitUndoesJoin` | internal/lambdahttp/request.go:378-415 | splitting a joined list and trimming gives the list back, for both separators in use |
| `RequestHeaders.JoinedLinesComeBack` | internal/lambdahttp/request.go:366-391 | a configured header that a gateway comma-joined is split into the lines the client sent |
| `RequestHeaders.EventLinesAreTheValues` | internal/lambdahttp/request.go:339-351 | outside the split set the request carries exactly the event's values, in order |
| `RequestHeaders.CookiesComeBack` | internal/lambdahttp/request.go:395-412 | every cookie of the array is found again in the one Cookie line, in order |
| `RequestHeaders.RequestHeader.FromMultiValues` | internal/lambdahttp/request.go:339-351 | the canonical header is every spelling's lines in key order |
| `RequestHeaders.RequestHeader.AppendValue` | internal/lambdahttp/request.go:378-391 | one name grows by the value's lines, no other name changes |
| `RequestHeaders.RequestHeader.AddCookies` | internal/lambdahttp/request.go:395-412 | one Cookie line: what was there, then the array |
| `ResponseHeaders.SplitSetCookie` | internal/lambdahttp/response.go:110-124 | cookies and the rest, each value once, under canonical names and in key order |
| `ResponseHeaders.RenderRest` | internal/lambdahttp/response.go:178-206 | disjoint maps that merge to exactly the recorded headers, cookies always as an array |
| `ResponseHeaders.RenderAlbMulti` | internal/lambdahttp/response.go:156-171 | the array map is exactly the recorded headers |
| `ResponseHeaders.RenderAlbSingle` | internal/lambdahttp/response.go:212-234 | succeeds exactly when no name has two values, and then loses nothing |
| `ResponseHeaders.RenderV2` | internal/lambdahttp/response.go:131-147 | cookies stay apart and in order, other names are comma-joined |
| `ResponseHeaders.ContentIsUnique` | internal/lambdahttp/response.go:156-234 | two faithful renderings of one recording carry the same content |
| `ResponseHeaders.FirstDecisionStands` | internal/lambdahttp/response.go:44-65 | over any acts of a handler the first final status or first write fixes the code, and no byte is lost |
| `ResponseHeaders.ResponseRecorder.WriteHeader` | internal/lambdahttp/response.go:51-65 | informational and later codes are ignored, impossible ones become 500 |
| `ResponseHeaders.ResponseRecorder.DropForbiddenBody` | internal/lambdahttp/response.go:86-106 | after a HEAD, a 204 or a 304 the body is empty, otherwise it is as it was; status and headers never change |
| `ResponseHeaders.SentIsAllOrNothing` | internal/lambdahttp/lambdahttp.go:408-440 | whatever a handler does and however it ends: a panic sends a bare 500; otherwise the first status chosen, with every byte written, or with none for a HEAD, a 204 or a 304 |
| `ResponseHeaders.Serve` | internal/lambdahttp/lambdahttp.go:408-440 | the recorder after a handler, its panic and the dropped body holds exactly that |
| `RuntimeSettings.EveryRunIsItsPatchesInOrder` | internal/store/dynamodb/settings.go:206-244 | the conditional-put loop loses no update: the document is the landed patches in order |
| `RuntimeSettings.SuccessLandsOnce` | internal/store/dynamodb/settings.go:206-244 | in every run, a call that answered success has exactly one landed put, its own patch, and one that had nothing to write has none |
| `Histories.LastMentionWins` | internal/store/dynamodb/settings.go:206-244 | each key holds the last patch that mentions it |
| `Histories.LastEditStandsIff` | cmd/auth/settings.go:168-197 | of any history whose seeds filled only keys they had read as absent, the last edit of a key stands exactly when it landed inside no window of a seed of the key |
| `Histories.FirstSeedStandsIff` | cmd/auth/settings.go:168-197 | and the first seed of a key never edited exactly when it landed inside no window of another |
| `RuntimeSettings.TheLastEditStands` | cmd/auth/settings.go:168-197 | over any run of cold starts, with any documents, and edits: a key holds its last landed patch, and that is its last edit exactly when the edit fell between no seed's read and put of the key |
| `RuntimeSettings.TheFirstSeedStands` | cmd/auth/settings.go:168-197 | a key never edited holds its first seed exactly when that fell between no other seed's read and put of the key |
| `RuntimeSettings.AnEditInsideTheWindowIsUndone` | cmd/auth/settings.go:168-197 | a run in which a seed overwrites an edit that landed between its two calls |
| `RuntimeSettings.OverlappingSeedsLastWins` | cmd/auth/settings.go:168-197 | a run in which two cold starts both report the key as seeded, and the second one's value stays |
| `RuntimeSettings.SettingsStore.SeedRuntimeSettings` | cmd/auth/settings.go:168-197 | absent declared keys are filled, held ones kept, and nothing is written when there is nothing to fill |
| `RuntimeSettings.SeedingTwiceIsSeedingOnce` | cmd/auth/settings.go:168-197 | seeding is idempotent and moves no held key |
| `RuntimeSettings.Declared` | cmd/auth/settings.go:219-257 | the declared keys are those moved away from the default, an empty list included |
| `TemplateSeeds.TemplateStore.SeedTemplates` | cmd/auth/email.go:291-359 | any bad file means no write; otherwise the second pass over the planned templates |
| `TemplateSeeds.TemplateStore.Validate` | cmd/auth/email.go:299-333 | the first pass collects mails and pages in directory order and finds every bad file |
| `TemplateSeeds.SeedingOnlyAdds` | cmd/auth/email.go:419-462 | however a pass alone ends, no stored entry has changed and every new one is a file's |
| `TemplateSeeds.SecondPassCompletesIff` | cmd/auth/email.go:334-359 | with the store up it completes exactly when every absent planned entry is storable |
| `TemplateSeeds.AValidatedDirectoryCanBeHalfWritten` | cmd/auth/email.go:280-290 | a directory the first pass accepts and the second writes half of |
| `TemplateSeeds.PlansAreDistinct` | cmd/auth/email.go:291-333 | no template is planned twice |
| `TemplateSeeds.SeedingAgainKeepsAll` | cmd/auth/email.go:334-359 | a completed seeding is idempotent |
| `TemplateSeeds.TheLastEditStands` | cmd/auth/email.go:267-275 | over any run of cold starts, interleaved read by read and write by write, and edits: a template holds what landed last, and that is its last edit exactly when the edit fell between no seed's read and write of it |
| `TemplateSeeds.TheFirstSeedStands` | cmd/auth/email.go:280-290 | a template never edited holds its first seed exactly when that fell between no other seed's read and write of it |
| `TemplateSeeds.PassesKeepWhatIsThere` | cmd/auth/email.go:267-275 | in any such run a template that was there and is never edited keeps its content |
| `TemplateSeeds.PassesWriteOnlyTheirFiles` | cmd/auth/email.go:419-462 | in any such run everything a pass wrote is a storable file of its own directory |
| `TemplateSeeds.OneTemplateAlone` | cmd/auth/email.go:419-462 | a read and a write with nothing between them are one template of the second pass |
| `TemplateSeeds.AnEditInsideTheWindowIsUndone` | cmd/auth/email.go:270-275 | a template saved between them is overwritten, for every file and every saved content |
| `CorrelationId.LoggableCorrelationId` | cmd/auth/logging.go:254-264 | the trimmed id, or its longest prefix of whole code points within 128 bytes, at least 125, and an ellipsis |
| `CorrelationId.Truncate` | cmd/auth/logging.go:254-264 | the loop stops at the last rune start within the bound, on any bytes |
| `CorrelationId.CutFallsBetweenRunes` | cmd/auth/logging.go:259-263 | on UTF-8 (section 3 of RFC 3629) that is where the code point that does not fit begins |
| `CorrelationId.LongestFitIsLongest` | cmd/auth/logging.go:246-253 | every shorter prefix fits and every longer one does not |
| `CorrelationId.EncodeInjective` | cmd/auth/logging.go:246-253 | distinct texts have distinct bytes |
| `CorrelationId.ForwardableCorrelationId` | cmd/auth/logging.go:276-287 | the trimmed id exactly when it is short, non-empty and printable ASCII |
| `CorrelationId.LogAndForward` | cmd/auth/logging.go:266-275 | whatever is forwarded is exactly what is logged |
| `Durations.ParseMs` | internal/config/duration.go:139-174 | the scanner's loops compute the parse of the text |
| `Durations.AcceptsExactlyOneTerm` | internal/config/duration.go:136-174 | a text is accepted exactly when it is one sign, decimal number, blanks and known unit, and in one way only |
| `Durations.CompoundSpansAreRefused` | internal/config/duration.go:12-22 | nothing with a digit after the unit has begun is accepted |
| `Durations.WholeSpanIsExactIff` | internal/config/duration.go:139-174 | in any unit a whole number's span is exact exactly when its nanoseconds fit int64 and a 53-bit significand |
| `Durations.IntegerSurvivesIff` | internal/config/duration.go:68-98 | for every integer: its first reading is right exactly when its nanoseconds fit int64, and comes back with the same span exactly when they also fit a 53-bit significand |
| `Durations.EighteenYearsSurvive` | internal/config/duration.go:68-98 | every integer up to 576460752303 milliseconds does |
| `Durations.LaterSpansMayChange` | internal/config/duration.go:68-98 | an integer that does not |
| `Durations.TextSurvives` | internal/config/duration.go:91-98 | a duration read from a string comes back with the same span or the same error |
| `Durations.UnsetDoesNotSurvive` | internal/config/duration.go:93-98 | an unset duration comes back with an error |
| `Durations.Duration.UnmarshalJson` | internal/config/duration.go:68-89 | never fails; the receiver holds the value, or the problem, of the text |

## Left out

- Non-ASCII case folding and trimming of addresses and unit names; trimming of the correlation id covers every Unicode space.
- Years outside 0000 to 9999 in stored timestamps, and rate-limiter runs with a clock before 1970.
- AnyValue.RoundTrip: a `json.Number` is outside the claim, because its text is stored as it came (`JsonNumberSurvivesIff` says what becomes of an integer); a fraction or minus zero is an opaque text and its float; a whole float beyond 2^53 is printed by its exact digits, where the code prints the shortest digits that name it.
- MetadataStore.Store.GetMetadata: the pages of one query are read from one state of the table.
- EmailChange.EveryRunKeepsInv: the items DeleteUser deletes beside the profile and the address item are the set its reads found, and they are deleted in any order; conflict retries of a transaction are not modelled.
- EmailChange.EveryRunKeepsBijection: needs that no DeleteUser runs; with it the bijection holds up to the pairs being swept, on the condition `NextKeepsInvIff` shows to be exact.
- ApiKeys.EveryRunKeepsBijection: needs that an id is not saved while a Delete of the same id is past its pointer read; `ResavedIdMayBeOrphaned` is what happens otherwise.
- ApiKeyStore.Store.FindById: its two reads see one state of the table; `FindAnswersItsOwnRecordIff` is about the two reads apart.
- RateLimit.LocalRefusalIsSound: all environments share one clock, and each has one request in flight.
- Retry-After is computed in whole nanoseconds; the code divides floating-point seconds before rounding up.
- RateLimitSubject.RateLimitSubject: the JSON decoder and the digest are given functions, and the client's address is a given string.
- CognitoImport.ImportAll: the dry run, the attribute map and the texts of failures; other writers of the table during an import.
- RuntimeSettings.EveryRunIsItsPatchesInOrder: a lock token is its instant; a token written by hand that is no timestamp, deletion of the item and the size limit are not modelled.
- TemplateSeeds.TemplateStore.SeedTemplates: run alone; the passes that interleave are the runs of `TheLastEditStands`. Reading and decoding a file is one outcome of that file, and the size of an item whose kept translations come from an edit inside the window is the file's.
- ResponseHeaders.RenderV2: comma-joining is not undone, because a value may hold commas itself.
- Durations.ParseMs: the span of a number with a fraction stays as written, and conversions outside int64 have no value.
- Durations.IntegerSurvivesIff: bare numbers with an exponent or a fraction.
- Index staleness, item expiry, clock skew between environments, and the development driver without a shared counter.
- Query strings, bodies, client addresses and the event plumbing of the Lambda adapter, whose members would only be easy ones.
- Configuration rules and range checks, composition and logging, and all transports.
