# A verified model of the storage platform's hard cores

This project models, in Dafny, the parts of the repository whose behaviour is hardest to get right, and proves
what they promise for all inputs, all runs and all interleavings. Where the code does not keep a promise, the
exact condition under which it does is proved, beside an input for which it does not.
`dafny verify dfyconfig.toml` checks everything.

## What is modelled

**Object store** (`ErasureCode`, `Store`, `StoreRuns`, `Uploads`, `StoreFaults`, `Paging`, `Engine`). `Engine.Engine`
has the source's locked methods, with their loops over an array of disks; each is proved to do what `Store.Exec` says,
on healthy and on failing disks alike. `StoreRuns` proves that runs of `Store.Exec` refine a plain map of buckets and
objects, and that reads survive exactly the losses of disks that the parity covers. `Uploads` says what an upload
leaves to be found, until somebody changes it. `StoreFaults` says what is read, once all disks are back, after an
overwrite that failed on one disk and after deletions while disks were down. `Paging` follows `next` markers through a
bucket that others change between the pages.

- A disk is a value, and is online or not; one disk's share of an operation happens wholly or not at all.
- The methods hold a lock, so each is one atomic step.
- SHA-256 and MD5 are free constructors, hence injective. JSON is a bijection.
- Reed-Solomon is any codec that satisfies `ErasureCode.MDS`; `XorIsMDS` shows that the law can be met.
- `DeleteObject` of a key that is not there succeeds, as removing an absent directory does. The branch that answers
  not-found is only reached when removing fails on every disk, and is not part of this model.

**Reservation rate limiter** (`RateLimit`, `WholeDay`, `Recovery`, `Verdicts`). The three Lua scripts are methods of
`RateLimit.Redis`, command by command. Runs interleave them with the passing of time and with the expiry of keys. An
expired key disappears at any moment from its expiry on, so both prompt and lazy expiry are covered. Days are those of
an abstract calendar, so time zones and daylight saving are covered. Redis and its clients share one clock. Scripts
that fail half-way, because a time to live is not positive, are modelled with what they leave behind. `Verdicts` tells
each script's answer from the log of what happened before it; `Missing` is what `Commit` turns into
`ErrReservationMissing`.

**Groups** (`Groups`). `SetUserGroups` and `SetPolicyMultiple` rewrite stored rows one by one. Rows are kept in a map;
JSON lists of members are sequences. The database does not fail.

**Cache layer** (`Keys`, `HashTags`, `CounterLedger`, `Versions`, `EntityCache`, `LateFill`). Redis is a map. In
`EntityCache` and `CounterLedger` anything that other clients may do happens before each single command; in
`EntityCache` every command may fail. In `EntityCache` the source stands still during a call, and other clients may
evict and may write what is right for it; in `LateFill` fetching and writing back are two steps, between which the
source may change and be invalidated, and an id is left right exactly under the condition proved there. In `HashTags`
the groups of a batch run in any order, one after the other, which their disjoint indexes justify. `Versions` models
one version name at a time; `KeysAgree` says why that is enough, and `ProviderSteps` ties the provider's fields to the
steps of the system. The comment on the default time to live of a version says 5 minutes and the code says 30; the
model follows the code.

**AWS Signature Version 4** (`Url`, `CanonicalQuery`, `ServerRequest`, `AuthHeaders`, `ClientQuery`, `ClientSigner`,
`Signatures`). The server's and the browser's canonical forms, the `Authorization` header's printer and parser, and
the check of a signature, so that a request signed by one side is accepted by the other, and a signature is good for
nothing but what it was made for. SHA-256 and HMAC are parameters; where it matters they are asked to be free of
collisions, a law that `Signatures.SpelledIsCollisionFree` shows can be met. `Url` writes out the escaping that Go's
`net/url` does, with the characters of sections 2.1 and 2.3 of RFC 3986.

**Error-code templates** (`Templates`, `Declarations`, `LineForms`, `TemplateEntries`, `TemplateRoundTrip`). The
writer, the parser, and the regular expressions they rest on, written out as functions. In Go's regular expressions
`\s` does not match the vertical tab, and the model keeps to that.

**Loops and arithmetic** (`Retry`, `Base64`, `Filters`). The retry loop with per-attempt deadlines, in nanoseconds,
with exact timers; the encoder of section 4 of RFC 4648; and in-place compaction under reuse of the array.

`Results`, `Seqs`, `Sorting` and `Text` hold what the others share. Go strings are strings of bytes; the bytes are
modelled as characters.

## What was found

- With parity off, an empty body is stored and cannot be read back (`StoreRuns.WithoutParity`).
- After an overwrite that failed on a disk, the object can read as bytes of neither version, under its old metadata
  (`StoreFaults.ReadAfterFailedPut`, `StoreFaults.NeitherIsRead`).
- An object that was deleted while disks were down can be read again once they are back, exactly if at most `parity`
  of the disks with its shards were up (`StoreFaults.DeletedReturnsIff`). A bucket that was deleted and created again
  by another account falls back to its old owner exactly if disk 0 was down (`StoreFaults.FirstDiskDecides`).
- With pages of one key and a first key that is empty, a scan never ends; otherwise it always does
  (`Paging.QuietScanEndsIff`).
- The daily bound of the limiter is exceeded exactly on days that leave room for one cooldown; twice the bound is then
  reached, in the last second, and never more (`WholeDay.ExceededIff`, `WholeDay.AtMostTwice`,
  `WholeDay.TwiceIsReached`).
- Expired reservations are never given back (`RateLimit.ExpiredSlotsAreLost`); some run grants again exactly if fewer
  slots have leaked than a day allows (`Recovery.GrantsAgainIff`).
- Asking for the groups a user already has takes all of them away (`Groups.RepeatingToggles`).
- The scan of a counter also drains counters whose name extends its own name and a colon, and hands their values to
  nobody (`CounterLedger.DrainedIff`).
- A scan fails exactly if a key is gone when its turn comes (`CounterLedger.ScanIsDrain`): because SCAN yields it
  twice (`CounterLedger.TwiceIsLost`), or because another client has drained it, and then what the rest of the batch
  held is lost (`CounterLedger.ScanAgainstDrainerIff`, `CounterLedger.StolenKeyLosesRest`).
- An MGET that fails inside a flight drops its ids without an error (`EntityCache.EntityCache.MGetOrLoad`,
  `EntityCache.MissesWithoutError`). Every batch of two or more ids shares its flight with another batch, the single
  id that they look like when joined with commas, and is given that batch's answer (`EntityCache.FlightIsSharedIff`,
  `EntityCache.OthersAnswerIff`).
- A reader that fetched before a write leaves the old entity in the cache after the invalidation
  (`LateFill.StaleAfterInvalidate`).
- The first bump of an absent version goes unseen (`Versions.BumpIsSeenIff`), and an invalidation works exactly when
  no load of an older version is in flight (`Versions.InvalidationWorksIff`, `Versions.InvalidationLosesRace`).
- A malformed query is signed as it came, so its segments cannot be reordered (`CanonicalQuery.ReorderingIff`). The
  two sides sign a query alike exactly if it is well formed, no parameter is without a name or, for S3, repeated, no
  name or value holds a space, and escaping leaves the order of the parameters alone (`ClientQuery.QueriesAgreeIff`,
  `ClientQuery.RepeatedNameDisagrees`, `ClientQuery.ReservedNamesDisagree`). They also part over methods that are not
  in capitals and over runs of white space in signed header values (`ClientSigner.SidesAgreeIff`). Without collisions
  a request is accepted exactly if the two sides are alike and hold the same secret (`Signatures.AcceptedIff`), and
  the body is under the signature exactly if no hash of it is given in a header (`Signatures.BodyIsSignedIff`).
- Under one prefix, two key builders share their keys exactly if they are the same or the namespace of one, without a
  version, reads like the version of the other, without a namespace (`Keys.KeysAreSharedIff`).
- The hint of a code loses the underscores that the code starts with (`TemplateEntries.HintSurvivesIff`), and the
  texts of a code outside the alphabet replace those of the code before it (`TemplateEntries.StrayTakesOver`).
- A comment that a file leaves open starts to count once the block is appended (`TemplateRoundTrip.OpenIsSeen`).
- A pointer to a nil slice filters the list but not the count, unless the places behind put it back
  (`Filters.NilSliceIsLost`, `Filters.RepeatableIff`).

## Model

| member | source | states |
|---|---|---|
| ErasureCode.RepairBody | engine/store/store.go:334-358 | whatever at most `parity` losses leave of the shards, repairing, joining and cutting at the size gives the body; after more losses nothing is given |
| ErasureCode.SplitRoundTrip | engine/store/store.go:265-279 | the data shards joined and cut at the size are the body: exactly the padding goes |
| ErasureCode.XorIsMDS | engine/store/store.go:79-86 | the law asked of the codec is met by one exclusive-or parity shard, for any number of data shards |
| Store.Geometry | engine/store/store.go:63-78 | there is a geometry whenever there are disks; at least one data shard and never more shards than disks; counts that fit are kept, and otherwise all disks are data and parity is dropped |
| StoreRuns.StepRefines | engine/store/store.go:109-397 | on disks that hold a sound store, every operation answers as the plain map does and leaves the disks holding the plain map's next state |
| StoreRuns.StepSound | engine/store/store.go:120-263 | every operation keeps: objects only in existing buckets, sizes equal to body lengths, owners non-empty, no empty body under parity |
| StoreRuns.RunRefines | engine/store/store.go:109-397 | the same over whole runs, reply by reply |
| StoreRuns.StoreIsAMap | engine/store/store.go:55-397 | from new disks on, every run answers as the plain map does, and ends with metadata identical on all disks |
| StoreRuns.OwnerIsFixed | engine/store/store.go:216-228 | a bucket that exists throughout a run keeps its owner |
| StoreRuns.DeleteOnlyEmpty | engine/store/store.go:168-183 | `DeleteBucket` succeeds exactly for the owner of a bucket without objects |
| StoreRuns.SurvivesDiskLoss | engine/store/store.go:281-359 | with parity, a stored object is read back in full if and only if at most `parity` of the disks that carry its shards are unreadable; disks beyond the shards do not matter |
| StoreRuns.WithoutParity | engine/store/store.go:334-345 | without parity the answer depends on disk 0 alone, and an empty body is not found |
| Uploads.UploadAnswers | engine/store/store.go:230-263 | in every run, an upload succeeds if and only if its caller owns the bucket and the body is not empty or there is no parity, and then answers with the key, the MD5 of the body, its length, the content type given and the time of the upload |
| Uploads.TagsTellBodies | engine/store/store.go:236-240 | two successful uploads of a run have the same entity tag if and only if their bodies are the same |
| Uploads.UploadIsFound | engine/store/store.go:230-306 | whatever runs before and after, an upload whose object nobody has changed since is found with that metadata, and with its body unless that is empty |
| Uploads.PutThenLoseThenGet | engine/store/store.go:230-306 | with parity the same after any tolerable loss of disks |
| Uploads.ObjectStays | engine/store/store.go:109-397 | an object that no operation of a run changes, and the owner of its bucket, stay what they are |
| Uploads.BucketIsRemade | engine/store/store.go:216-228 | after `PutBucketMeta` by the owner the bucket has what the caller's change made of it under its old name and owner, and every other bucket is what it was |
| StoreFaults.ReadAfterFailedPut | engine/store/store.go:246-296 | after an overwrite that failed on one disk, once it is back: an error if shards of two lengths meet, else the new version in the shards before that disk and the old one behind, under the old metadata |
| StoreFaults.SplicedAt | engine/store/store.go:346-358 | that answer byte by byte |
| StoreFaults.OldIsReadIff | engine/store/store.go:346-358 | the old body is read if and only if the new one agrees with it in the overwritten shards |
| StoreFaults.NewIsReadIff | engine/store/store.go:346-358 | the new body is read if and only if it is as long and agrees in the others |
| StoreFaults.NeitherIsRead | engine/store/store.go:346-358 | bodies of one length that differ in their first and last byte read as neither |
| StoreFaults.DeletedReturnsIff | engine/store/store.go:361-378 | with parity, a deletion that was reported as done is undone by disks that were down if and only if at most `parity` of the disks with shards were up |
| StoreFaults.DeletedReturnsWithoutParityIff | engine/store/store.go:361-378 | without parity, if and only if disk 0 was down and the body is not empty |
| StoreFaults.DeletedBucketReturnsIff | engine/store/store.go:168-183 | a deleted bucket is there again, with its owner, if and only if some disk was down |
| StoreFaults.FirstDiskDecides | engine/store/store.go:120-160 | after a deletion by the owner and a creation by another account with disks down, the creation is reported as failed, and the bucket belongs to the new account or the old one as disk 0 was up or down |
| Engine.Engine.New | engine/store/store.go:63-96 | the engine has the settled shard counts and, with parity, the library's codec for them; no disks and a refusing library are errors |
| Engine.Engine.GetBucketLocked | engine/store/store.go:147-160 | the first readable disk that has the bucket answers |
| Engine.Engine.AssertOwnedLocked | engine/store/store.go:109-118 | not-found for no bucket, forbidden for another owner or none, else the bucket |
| Engine.Engine.WriteBucketLocked | engine/store/store.go:133-145 | exactly the disks before the first failing one are written, and it succeeds if and only if none fails |
| Engine.Engine.CreateBucket | engine/store/store.go:120-131 | the step of `Store.Exec`, refusals and half-written disks included |
| Engine.Engine.PutBucketMeta | engine/store/store.go:216-228 | the step of `Store.Exec`: the caller's change with owner and name put back |
| Engine.Engine.DeleteBucket | engine/store/store.go:168-183 | the step of `Store.Exec`: refused if some readable disk lists an object, else dropped from every readable disk |
| StoreRuns.JoinAfterLoss | engine/store/store.go:265-279 | what `split` gave is joined to the body again from any remains with at most `parity` losses, and to nothing from fewer |
| Engine.Engine.PutObject | engine/store/store.go:230-263 | the step of `Store.Exec`: shard `i` and the metadata on disk `i`, up to the first failing disk |
| Engine.Engine.ReadShardsLocked | engine/store/store.go:308-332 | one shard per disk, empty where unreadable, with the metadata of the readable disks decoded one over the other |
| Engine.Engine.JoinParts | engine/store/store.go:334-359 | the join, with and without parity, its two errors and its cut |
| Engine.Engine.GetObject | engine/store/store.go:281-296 | the answer of `Store.Exec` on any disks |
| Engine.Engine.HeadObject | engine/store/store.go:298-306 | the answer of `Store.Exec` on any disks |
| Engine.Engine.DeleteObject | engine/store/store.go:361-378 | the step of `Store.Exec`: gone from every readable disk |
| Engine.Engine.UpdateObjectMeta | engine/store/store.go:380-397 | the step of `Store.Exec`: metadata rewritten where the object is, parts untouched |
| Engine.Engine.ListObjectsLocked | engine/store/store.go:445-484 | the keys with the prefix on any readable disk, strictly ascending, none missing, cut at the limit |
| Engine.Engine.ListObjects | engine/store/store.go:399-406 | the same for the owner, and the owner check's errors for others |
| Engine.Engine.ListObjectsPage | engine/store/store.go:408-443 | the page that `Paging.PageOf` cuts from the full listing, or the owner check's error |
| Engine.Engine.CutPage | engine/store/store.go:418-442 | the loop that looks for the marker finds the first key above it |
| Paging.ListingRefines | engine/store/store.go:445-484 | a listing is the sorted prefix of the plain map, entry by entry, both ways |
| Paging.PageHolds | engine/store/store.go:418-442 | a page is the listing from the first key above the marker on, as many as asked for or 1000, truncated if and only if there are more, with its last key as `next` |
| Paging.ScanServes | engine/store/store.go:408-443 | whatever changes between pages, each object gathered was stored when its page was served |
| Paging.ScanAscends | engine/store/store.go:408-443 | whatever changes between pages, the keys gathered strictly increase, unless the first page leads back to the start |
| Paging.ScanAscendsIff | engine/store/store.go:421-440 | from the start, they strictly increase if and only if not a one-key first page with the empty key is followed by a listing that begins with it |
| Paging.ScanFindsTheSteady | engine/store/store.go:408-443 | a scan that came to its end has returned every key that was there throughout |
| Paging.QuietScan | engine/store/store.go:408-443 | in an unchanged bucket the scan ends within one page per key above the marker and gives the listing from the marker on, unless its first page leads back |
| Paging.QuietScanEndsIff | engine/store/store.go:408-443 | in an unchanged bucket the scan from the start ends if and only if not pages of one key meet an empty first key before others, and then gives the whole listing |
| Paging.StuckNeverEnds | engine/store/store.go:422-440 | in that case no number of pages ends it |
| RateLimit.FixedZoneIsSane | pkgs/security/ratelimit/keys.go:14-31 | the laws asked of a calendar are met by every fixed time zone |
| RateLimit.Redis.LuaTry | pkgs/security/ratelimit/redis.go:33-71 | the script's commands have the effect and the answer of `Try`, errors half-way included |
| RateLimit.Redis.LuaCommit | pkgs/security/ratelimit/redis.go:73-98 | the same for `CommitScript` |
| RateLimit.Redis.LuaCancel | pkgs/security/ratelimit/redis.go:100-109 | the same for `CancelScript` |
| RateLimit.StepKeepsBooks | pkgs/security/ratelimit/redis.go:33-109 | every step keeps pending = granted − committed − cancelled ≥ live + expired; every commit or cancel of a live token lowers pending by one; leaked slots never come back |
| RateLimit.ReservationAccounting | pkgs/security/ratelimit/redis.go:53-107 | the books hold in every reachable state |
| RateLimit.TokensTakeEffectOnce | pkgs/security/ratelimit/redis.go:85-106 | in every run a token is committed or cancelled at most as often as it was granted |
| RateLimit.ExpiredSlotsAreLost | pkgs/security/ratelimit/redis.go:62-69 | once as many reservations have expired as a day allows, no later reservation is ever granted |
| Recovery.GrantsAgainIff | pkgs/security/ratelimit/redis.go:62-107 | from a reachable state some run grants again if and only if fewer slots have leaked than a day allows |
| RateLimit.StepKeepsBound | pkgs/security/ratelimit/redis.go:62-96 | every step keeps count of today + pending within the daily maximum, across midnight too |
| RateLimit.AtMostDailyMaxCommits | pkgs/security/ratelimit/redis.go:33-109 | in every interleaving at most `dailyMax` commits fall on one day before its 23:59:59 |
| WholeDay.AtMostTwice | pkgs/security/ratelimit/redis.go:33-109 | in every interleaving at most twice the maximum is committed on a whole day, and at most the maximum without commits in the last second |
| WholeDay.TwiceIsReached | pkgs/security/ratelimit/keys.go:28-31 | for every policy, a run with exactly twice the maximum on a day that leaves room for one cooldown |
| WholeDay.ExceededIff | pkgs/security/ratelimit/redis.go:53-96 | more than the maximum can be committed on a day if and only if the day leaves room for one cooldown |
| RateLimit.WaitIsExact | pkgs/security/ratelimit/redis.go:53-60 | in every reachable state, without a commit in between, retries before now + wait are refused with what is left of the wait, and none from then on is refused for the cooldown |
| Verdicts.CommitAnswers | pkgs/security/ratelimit/redis.go:86-97 | in every reachable state, a commit answers missing if and only if the last thing that happened to the token was not its grant, and if and only if it changes nothing; it answers success if and only if it is recorded and starts the cooldown; without a cooldown the script fails after it has counted the commit |
| Verdicts.CommitCounts | pkgs/security/ratelimit/redis.go:93-94 | a commit that takes effect raises its day's count by one and no other; only the first one in a day's last second leaves none |
| Verdicts.CancelAnswers | pkgs/security/ratelimit/redis.go:100-109 | likewise for a cancellation, which leaves counts and cooldown alone |
| Verdicts.ReserveAnswers | pkgs/security/ratelimit/redis.go:54-75 | before the last second of a day a reservation is refused for the cooldown, with what is left of it, if and only if the last commit is less than the cooldown ago, else for the day if and only if its commits and the open slots reach the maximum, else granted until its time to live is over; a refusal changes nothing |
| Verdicts.UnlimitedGrants | pkgs/security/ratelimit/redis.go:48-52 | without a maximum every reservation is granted and is pending |
| Groups.Service.UpsertGroup | modules/iam/infrastructure/iam/iam.go:369-396 | an unnamed group is refused; else the row is `Upserted` |
| Groups.Service.SetUserGroups | modules/iam/infrastructure/iam/iam.go:398-429 | the nested loops leave the table `After`, whatever the order of rows and of the map |
| Groups.Service.Strip | modules/iam/infrastructure/iam/iam.go:408-416 | the inner loop drops the user everywhere, keeps the order of the others and notes whether it was there |
| Groups.Service.GroupsForUser | modules/iam/infrastructure/iam/iam.go:431-446 | exactly the groups that hold the user, each once |
| Groups.ExactEffect | modules/iam/infrastructure/iam/iam.go:405-427 | groups of the user afterwards = wanted ∖ groups before |
| Groups.IntentMetIff | modules/iam/infrastructure/iam/iam.go:398-429 | the user ends up in exactly the wanted groups if and only if it was in none of them before |
| Groups.RepeatingToggles | modules/iam/infrastructure/iam/iam.go:398-429 | asking for the present groups removes all of them; asking again restores them |
| Groups.OthersUntouched | modules/iam/infrastructure/iam/iam.go:405-427 | the other members, the policy and the date of every group stay, and its status unless it is empty and the row rewritten; rows that are neither wanted nor the user's are not rewritten; a new group holds the user alone |
| Groups.UpsertKeeps | modules/iam/infrastructure/iam/iam.go:369-396 | what is not given to an upsert stays: everybody's groups without members, the policy, a non-empty status; an existing group keeps its date, and no other group is touched |
| Groups.Service.SetPolicyMultiple | modules/iam/infrastructure/iam/iam.go:363-365 | the loop leaves the table `WithPolicy`, whatever repeats in the list |
| Groups.PolicyLeavesMembers | modules/iam/infrastructure/iam/iam.go:359-367 | attaching a policy to groups leaves everybody's groups alone, gives the named groups the policy and no other group anything, and repeating it changes nothing |
| Keys.KeyBuilder.CounterKeyInverts | pkgs/cachex/core/key_builder.go:98-113 | the parser accepts a key for an id if and only if it is the key printed for that id |
| Keys.KeyBuilder.HeadIsNotClosed | pkgs/cachex/core/key_builder.go:107-111 | the slice taken by the parser is always in range |
| Keys.KeyBuilder.ExtendingNameIsCaught | pkgs/cachex/core/key_builder.go:98-113 | a key of a counter whose name extends `name` and a colon matches the pattern of `name`, and is unknown to its parser or credited to an id that is not its own |
| Keys.KeyBuilder.CaughtIff | pkgs/cachex/core/key_builder.go:98-105 | for names without braces, the pattern of one counter matches a key of another if and only if the other is the same or extends it with a colon |
| Keys.KeyBuilder.EntityInjective | pkgs/cachex/core/key_builder.go:58-62 | different ids have different entity keys |
| Keys.KeyBuilder.EntityNilInjective | pkgs/cachex/core/key_builder.go:64-68 | different ids have different not-found keys |
| Keys.KeyBuilder.EntityIsNotNil | pkgs/cachex/core/key_builder.go:58-68 | no entity key is a not-found key |
| Keys.KeysAreSharedIff | pkgs/cachex/core/key_builder.go:34-62 | for namespaces and versions without colons and braces, two builders of one prefix print the same entity key if and only if the ids are the same and the builders are, or one's namespace reads like the other's version |
| HashTags.TagFollowsSpecification | pkgs/cachex/core/base_cache.go:353-364 | the extracted tag, or the whole key for none, is the part that the "Hash tags" section of the Redis Cluster specification hashes, and no other |
| HashTags.EntityKeysShareTag | pkgs/cachex/core/key_builder.go:58-68 | both keys of an id have the same tag, which is the id unless braces interfere |
| HashTags.GroupKeysBy | pkgs/cachex/core/base_cache.go:318-335 | the groups partition the indexes, keep each group's keys in order, and hold nothing else |
| HashTags.GroupsShareSlotIff | pkgs/cachex/core/base_cache.go:316-335 | all keys of each group have one hashed part, hence one slot, if and only if no untagged key of the batch, behind "single:", is the tag of another |
| HashTags.BaseCache.MGet | pkgs/cachex/core/base_cache.go:159-189 | position `i` gets the stored value of key `i`, for every list of keys and every order of groups; an error if a group fails |
| HashTags.BaseCache.Gather | pkgs/cachex/core/base_cache.go:171-182 | one group writes its own indexes and leaves all others alone |
| HashTags.BaseCache.MSet | pkgs/cachex/core/base_cache.go:191-218 | scattering the pairs over groups stores them all and only them, and reports a failing pipeline, of which whatever it reached is stored |
| HashTags.BaseCache.MSetNX | pkgs/cachex/core/base_cache.go:220-247 | the same for absent keys only; present keys keep their values |
| CounterLedger.CounterCache.IncrBy | pkgs/cachex/core/counter_cache.go:37-40 | adds to one counter and returns the new value |
| CounterLedger.CounterCache.GetAndReset | pkgs/cachex/core/counter_cache.go:47-63 | returns the value, 0 when absent, and removes the key |
| CounterLedger.CounterCache.Consume | pkgs/cachex/core/counter_cache.go:100-114 | the loop hands over the values as `Credit` says |
| CounterLedger.CreditAdds | pkgs/cachex/core/counter_cache.go:100-114 | each id is credited with exactly what was taken from its own key |
| CounterLedger.CounterCache.Apply | pkgs/cachex/core/counter_cache.go:88-116 | a batch has the effect and the answer of `Batch` |
| CounterLedger.BatchConserves | pkgs/cachex/core/counter_cache.go:97-116 | whatever others do, a batch takes from each key what it is shown to have read; it credits all of it if it succeeds, and nobody if it fails |
| CounterLedger.CounterCache.ScanAndConsume | pkgs/cachex/core/counter_cache.go:74-131 | the loop with its buffer has the effect and the answer of `Scan`, for every batch size |
| CounterLedger.ScanConserves | pkgs/cachex/core/counter_cache.go:74-131 | for every id, whatever other clients do in between, consumed + left + lost = before + what they changed, and a scan that succeeds loses nothing |
| CounterLedger.CountingScan | pkgs/cachex/core/counter_cache.go:37-40 | when the others only count, what they changed is the sum of what they added meanwhile |
| CounterLedger.ScanLeavesAlone | pkgs/cachex/core/counter_cache.go:74-131 | keys outside the scan only change by what others do to them |
| CounterLedger.ScanIsDrain | pkgs/cachex/core/counter_cache.go:88-131 | whatever others do, a scan succeeds if and only if every GETDEL finds its key, as if its batches were one pipeline |
| CounterLedger.ScanSucceeds | pkgs/cachex/core/counter_cache.go:97-131 | whatever others add, a scan that yields distinct existing keys succeeds |
| CounterLedger.ScanAgainstDrainerIff | pkgs/cachex/core/counter_cache.go:97-131 | against a second client that drains, it succeeds if and only if no key is yielded twice, all exist, and none is taken before its turn |
| CounterLedger.StolenKeyLosesRest | pkgs/cachex/core/counter_cache.go:97-99 | when a key of a batch is taken before its turn, the batch hands over nothing and loses what the others held |
| CounterLedger.ScanAloneIff | pkgs/cachex/core/counter_cache.go:97-131 | without other clients it succeeds if and only if no key is yielded twice and all exist, and then leaves none of them and hands over exactly what the counter's own keys held |
| CounterLedger.TwiceIsLost | pkgs/cachex/core/counter_cache.go:97-99 | a key yielded twice within a batch fails it, and what the key held is gone and handed to nobody |
| CounterLedger.DrainedIff | pkgs/cachex/core/counter_cache.go:84-114 | a full scan of a counter drains another if and only if the other's name extends its name and a colon, and then hands the other's values to nobody |
| Versions.KeysAgree | pkgs/cachex/core/ver_provider.go:36-42 | two versions share a local entry if and only if they share a Redis key |
| Versions.BumpIsSeenIff | pkgs/cachex/core/ver_provider.go:69-71 | a bump changes the next load if and only if the key existed, never lowers it, and touches no other version |
| Versions.VerProvider.Bump | pkgs/cachex/core/ver_provider.go:113-118 | Redis is incremented and the name published |
| Versions.ProviderSteps | pkgs/cachex/core/ver_provider.go:46-118 | what the provider does to its fields and to Redis is a step of the system whose runs are studied |
| Versions.HistoryIsRedis | pkgs/cachex/core/ver_provider.go:69-71 | the versions of a history are what loads read after so many increments |
| Versions.BoundedStaleness | pkgs/cachex/core/ver_provider.go:46-118 | in every interleaving, each version returned was Redis's at most a time to live and one load's latency before |
| Versions.LoadsAreRare | pkgs/cachex/core/ver_provider.go:46-101 | in every run Redis is read at most once in each time to live, and once more for each message that comes |
| Versions.StoredVersionsNeverDecrease | pkgs/cachex/core/ver_provider.go:57-89 | in every run the versions stored locally never decrease |
| Versions.LocalIsLastStored | pkgs/cachex/core/ver_provider.go:96-100 | in every run what is held locally is what was stored last |
| Versions.InvalidationWorksIff | pkgs/cachex/core/ver_provider.go:69-107 | in any state, no answer after an invalidation, in any continuation, is older than Redis's version at its arrival if and only if no load of an older version is in flight |
| Versions.OlderIff | pkgs/cachex/core/ver_provider.go:69-71 | a read is older exactly if a bump came after it, save the unseen first one |
| Versions.InvalidationLosesRace | pkgs/cachex/core/ver_provider.go:69-107 | a run in which the old version is served after the bump and its message |
| EntityCache.SetKeepsCoherent | pkgs/cachex/core/entity_cache.go:207-210 | caching the source's entity keeps the whole cache coherent |
| EntityCache.MarkKeepsCoherent | pkgs/cachex/core/entity_cache.go:373-379 | marking an absent id keeps the whole cache coherent |
| EntityCache.RemovalKeepsCoherent | pkgs/cachex/core/entity_cache.go:80-91 | evicting any keys keeps it coherent, and removing both keys of an id makes it coherent there |
| EntityCache.EntityCache.GetOrLoad | pkgs/cachex/core/entity_cache.go:117-219 | reading through the cache is reading the source, whatever is cached, whoever interferes and whatever fails, but for an error of the source itself; coherence is kept and the answer is remembered; the source is asked if and only if neither look finds the entity or its mark, or reading is bypassed |
| EntityCache.EntityCache.LookFor | pkgs/cachex/core/entity_cache.go:160-170 | a look answers if and only if it finds the entity or its mark, and then with what the source holds |
| EntityCache.EntityCache.Load | pkgs/cachex/core/entity_cache.go:186-212 | the fetch, its three answers, and what is written back |
| EntityCache.EntityCache.SetNil | pkgs/cachex/core/entity_cache.go:373-379 | sets the mark unless there is one, the command fails or negative caching is off |
| EntityCache.EntityCache.MGetOrLoad | pkgs/cachex/core/entity_cache.go:222-328 | the answer is the source restricted to the ids, less those that are missing when the inner MGET fails, which is named by its number; it falls short if and only if that command fails and an existing id was not found by the first MGET; the source is asked once, for just the ids that neither look answers, and not at all if there are none; if the first MGET finds them all it is the only command |
| EntityCache.MissesWithoutError | pkgs/cachex/core/entity_cache.go:285-290 | for every id and entity, a read that succeeds without it though the source holds it |
| EntityCache.ReadTwice | pkgs/cachex/core/entity_cache.go:222-328 | on a quiet cache with negative caching, what was read once is not asked for again, whether it exists or not, and the second answer is the first |
| EntityCache.EntityCache.FilledAndMissing | pkgs/cachex/core/entity_cache.go:330-342 | hits and misses split the ids, and each hit is the item at a position of its id |
| EntityCache.EntityCache.FilterByMarks | pkgs/cachex/core/entity_cache.go:344-360 | only ids absent from the source are filtered out |
| EntityCache.EntityCache.WriteBack | pkgs/cachex/core/entity_cache.go:381-407 | caching a batch and marking its misses keeps the cache coherent, also when a pipeline fails and has written some of it |
| EntityCache.EntityCache.Flight | pkgs/cachex/core/entity_cache.go:283-318 | the flight answers with the source restricted to its ids, less what a failing MGET dropped, and asks for just the ids that its own look does not answer |
| EntityCache.EntityCache.Deduplicate | pkgs/utils/slice/slice.go:26-43 | the same ids, each once, in the order of their first appearance |
| EntityCache.EntityCache.Invalidate | pkgs/cachex/core/entity_cache.go:80-91 | after a write to the source it restores coherence unless a command fails, which it reports |
| EntityCache.EntityCache.WriteSource | pkgs/cachex/core/entity_cache.go:79-91 | a write to the source spoils coherence at that id at most |
| EntityCache.FlightsShareIff | pkgs/cachex/core/entity_cache.go:435-445 | two batches share a flight if and only if they ask for the same ids, when no id holds a comma |
| EntityCache.JoinedAnswerIsOwn | pkgs/cachex/core/entity_cache.go:281-325 | without commas, the answer of a flight that a caller joins is the caller's own, whatever the source holds |
| EntityCache.FlightIsSharedIff | pkgs/cachex/core/entity_cache.go:435-445 | a batch shares its flight with a different one if and only if it has two or more ids, or one that can be cut at a comma into two ids in order |
| EntityCache.OthersAnswerIff | pkgs/cachex/core/entity_cache.go:281-325 | a batch of two or more ids and the one id it looks like when joined have different answers as soon as the source holds any of the ids |
| LateFill.WriteBackIff | pkgs/cachex/core/entity_cache.go:186-210 | a late write-back leaves its id right if and only if the source still holds what was fetched, or there is nothing to write |
| LateFill.InvalidationLastsIff | pkgs/cachex/core/entity_cache.go:80-91 | after an invalidation the id stays right in every continuation without a new write if and only if no reader under way holds anything but the source's value |
| LateFill.WriteAndInvalidateSettle | pkgs/cachex/core/entity_cache.go:79-91 | a write and its invalidation settle the id if no reader of it is under way |
| LateFill.DoneReadersSettle | pkgs/cachex/core/entity_cache.go:186-210 | a reader that has written back no longer stands in the way of that |
| LateFill.StaleAfterInvalidate | pkgs/cachex/core/entity_cache.go:186-210 | for every id and every change of it, a run that leaves the old entity cached after the invalidation |
| Url.EscapeRoundTrip | engine/sigv4/sigv4.go:115-129 | unescaping undoes escaping on every byte string |
| Url.EscapeIsUpper | engine/sigv4/sigv4.go:129 | escaped text is unreserved characters, plus signs and percent signs, each before two hexadecimal digits in capitals |
| Url.SegmentReads | engine/sigv4/sigv4.go:115 | a segment of a query is a name and, behind its first equals sign, a value, which is empty without one |
| Url.PairsPermute | engine/sigv4/sigv4.go:115 | the parsed pairs do not depend on the order of segments, counted with repetition |
| CanonicalQuery.Compute | engine/sigv4/sigv4.go:111-133 | the loops over the parsed map, in any order of names, give the pairs sorted by name and value |
| CanonicalQuery.ReorderingIff | engine/sigv4/sigv4.go:111-133 | reordering segments keeps the canonical form if and only if the query parses or nothing moved |
| CanonicalQuery.Idempotent | engine/sigv4/sigv4.go:111-133 | canonicalising twice changes nothing |
| CanonicalQuery.CanonicalKeepsPairs | engine/sigv4/sigv4.go:111-133 | the canonical form parses to the same pairs, counted with repetition |
| ServerRequest.ComputeCanonicalRequest | engine/sigv4/sigv4.go:83-109 | the loops give the six lines of the canonical request |
| AuthHeaders.ParseAuthorization | engine/sigv4/sigv4.go:31-56 | the loop over the parts gives `ParseAuth`, the later of equal fields winning |
| AuthHeaders.AuthorizationRoundTrip | engine/sigv4/sigv4.go:31-56 | the parser recovers access key, date, region, signed headers and signature from the client's header |
| AuthHeaders.OkIff | engine/sigv4/sigv4.go:31-56 | a header is accepted if and only if it has the scheme, a credential of five parts with an access key, and a signature |
| ClientSigner.Signer.constructor | console/src/utils/aws4fetch.ts:238-335 | which headers are set and signed, sorted and joined, and which parameters are signed |
| ClientSigner.SignableNames | console/src/utils/aws4fetch.ts:273-276 | exactly the host and the signable headers, sorted |
| ClientSigner.HeadersSet | console/src/utils/aws4fetch.ts:260-271 | header by header: no host, the time, for S3 a body declared unsigned unless its hash is given, the session token unless it is appended later, all others as they came |
| ClientSigner.UpperIs | console/src/utils/aws4fetch.ts:407-409 | the method is signed in capitals: the same letters, and unchanged if and only if none is small |
| ClientSigner.CollapseWords | console/src/utils/aws4fetch.ts:282-287 | in a header value each word is kept and the white space behind it becomes one space |
| ClientQuery.KeepParams | console/src/utils/aws4fetch.ts:314-323 | no parameter without a name and, for S3, only the first of each name |
| ClientQuery.KeptValues | console/src/utils/aws4fetch.ts:314-323 | of each name all values are signed, in order; for S3 the first alone; of the empty name none |
| ClientQuery.EscapesAgreeIff | console/src/utils/aws4fetch.ts:324 | the two sides escape a text alike if and only if it holds no space |
| ClientQuery.QueriesAgreeIff | console/src/utils/aws4fetch.ts:314-335 | for every query text and every parameters read from it, the client's search string is the server's canonical query if and only if the server can read it, the client drops no parameter, there is no space, and escaping keeps the order of the parameters |
| ClientQuery.UnreservedNamesAgreeIff | console/src/utils/aws4fetch.ts:314-335 | for names over the unreserved characters: if and only if no parameter is dropped, no value holds a space, and escaping keeps the order of the values of each name, as it does when names are distinct |
| ClientQuery.RepeatedNameDisagrees | console/src/utils/aws4fetch.ts:318-321 | for S3, a name that comes twice is enough for the sides to part |
| ClientQuery.ReservedNamesDisagree | console/src/utils/aws4fetch.ts:325-333 | two names without a space that the sides sort differently |
| ClientSigner.AlikeIff | console/src/utils/aws4fetch.ts:282-287 | a header value is written alike by both sides if and only if its white space is single spaces |
| ClientSigner.SidesAgreeIff | console/src/utils/aws4fetch.ts:407-416 | for a head without line breaks, the server's canonical request equals the client's canonical string if and only if the method is in capitals, the two agree on the query, and every signed header is written alike |
| Signatures.OneSignatureIsGood | engine/sigv4/sigv4.go:63-81 | for a request as the client signs it, the server finds good the client's signature, in letters of either case, and no other |
| Signatures.GoodForOneRequest | engine/sigv4/sigv4.go:63-81 | without collisions, a signature of the client is found good if and only if secret, date, region, service, time and canonical request are those it was made for |
| Signatures.SpelledIsCollisionFree | engine/sigv4/sigv4.go:20-29 | the law asked of SHA-256, HMAC and the hexadecimal digits can be met |
| Signatures.SignedIsAccepted | engine/sigv4/sigv4.go:58-81 | the header the client sends is parsed to its access key, and the server finds the signature good, if the two sides are alike |
| Signatures.AcceptedIff | engine/sigv4/sigv4.go:58-81 | without collisions, if and only if they are alike and the server holds the secret the request was signed with |
| Signatures.BodyIsSignedIff | engine/sigv4/sigv4.go:84-87 | without collisions, a request that arrives with another body is accepted if and only if a hash of the body is given in a header |
| Signatures.Sign | console/src/utils/aws4fetch.ts:346-373 | from the caller's inputs to the header: inputs that are alike to both sides give a request that the server accepts, and without collisions it accepts it in no other case and with no other secret |
| Templates.AddBlockIfMissing | errors/cmd/add_templates/template.go:16-47 | the builder loop gives the file `WithBlock`, unchanged if there is a block or no code |
| Templates.TrimTailIs | errors/cmd/add_templates/template.go:41 | just the line breaks, tabs and spaces at the end of the file go |
| Declarations.MatchesIff | errors/cmd/add_templates/template.go:11 | a text matches at its start if and only if it begins with a declaration, and gives that declaration's code |
| Declarations.DeclaredAreFound | errors/cmd/add_templates/template.go:28 | in a file of declarations and other text, the codes found are those declared, all of them, in order and with repetition |
| Declarations.HintTellsCode | errors/cmd/add_templates/template.go:49-51 | the hint of a code over the alphabet is small letters, digits and spaces, and tells the code |
| Templates.TrimLine | errors/cmd/gen_langs/parse.go:77-87 | the two index loops trim blanks, tabs and carriage returns at both ends |
| Templates.SplitLines | errors/cmd/gen_langs/parse.go:65-75 | the index loop gives every line trimmed, the last one included |
| Templates.CollectFromFile | errors/cmd/gen_langs/parse.go:28-63 | the loops over comments and lines fill in exactly the texts of `ParseBlocks` |
| LineForms.CodeLineIff | errors/cmd/gen_langs/parse.go:11 | a line gives a code if and only if it is an exclamation mark and that code with white space around it |
| LineForms.LangLineIff | errors/cmd/gen_langs/parse.go:12 | a line gives a language and a text if and only if it is a star, the language with white space around it, and a slot that holds the text |
| LineForms.SlotIff | errors/cmd/gen_langs/parse.go:12 | a slot holds a text if and only if it opens with a bracket and white space, and the text is followed by nothing or by a bracket and white space |
| TemplateEntries.HintSurvivesIff | errors/cmd/add_templates/template.go:49-51 | the hint is read back as written if and only if the code does not start with an underscore |
| TemplateEntries.CodeSurvivesIff | errors/cmd/gen_langs/parse.go:11 | a code is read back as itself if and only if it is over the alphabet |
| TemplateEntries.EntriesRead | errors/cmd/gen_langs/parse.go:40-61 | for all codes without line breaks, the entries are read one after the other, the texts of each going to the code it gives or to the one before |
| TemplateEntries.StrayTakesOver | errors/cmd/gen_langs/parse.go:41-58 | the texts of a code that is not read replace those of the code before it |
| TemplateEntries.AddedExactly | errors/cmd/gen_langs/parse.go:51-59 | en is the hint without leading spaces, zh and fr are empty for each code, and no other entry changes |
| TemplateRoundTrip.BlockIsFound | errors/cmd/gen_langs/parse.go:33-38 | the appended block is found as one comment |
| TemplateRoundTrip.TextThenBlock | errors/cmd/gen_langs/parse.go:10-63 | whatever text precedes the block and whatever codes it holds, parsing both reads the text's comments and then the entries |
| TemplateRoundTrip.AnyCodesRoundTrip | errors/cmd/gen_langs/parse.go:28-63 | the same for a file with the appended block, for all codes without a line break or an end of a comment |
| TemplateRoundTrip.BeforeIsSeen | errors/cmd/gen_langs/parse.go:33-39 | the entries are read on top of what was to be seen in the file, and afresh if the file closes its comments |
| TemplateRoundTrip.RoundTrip | errors/cmd/gen_langs/parse.go:28-63 | for codes over the alphabet, parsing a file with the appended block gives what was to be seen in the file and the texts of its codes, whatever else the file holds; that is what the parser found in it before if and only if the file closes its comments |
| TemplateRoundTrip.SeenIsFoundIff | errors/cmd/gen_langs/parse.go:10 | what is to be seen in a text is what the parser finds in it if and only if it closes its comments |
| TemplateRoundTrip.OpenIsSeen | errors/cmd/gen_langs/parse.go:10 | an open comment, with one star or two, counts once a block follows, and is not found before |
| TemplateRoundTrip.SecondWriteChangesNothing | errors/cmd/add_templates/template.go:16-47 | a second `AddBlockIfMissing` changes nothing, whatever the file holds |
| Retry.AttemptDeadlineBounds | pkgs/utils/contextx/per_attempt.go:63-84 | the attempt's deadline is never after the parent's, is there if either limit is, and exceeds the limit asked for by at most a millisecond |
| Retry.AttemptDeadlineIs | pkgs/utils/contextx/per_attempt.go:63-84 | the attempt gets the limit asked for if and only if that ends more than a millisecond before the parent's deadline, else the parent's |
| Retry.EndsInTime | pkgs/retry/retry.go:227-281 | with both limits set the loop ends within their sum and a millisecond, and never past the parent's deadline |
| Retry.CountsCalls | pkgs/retry/retry.go:228-265 | at most `maxTries` calls, and one notification between any two calls |
| Retry.RetryPromise | pkgs/retry/retry.go:198-282 | both, from the first attempt on |
| Retry.AttemptIsMadeIff | pkgs/retry/retry.go:227-281 | attempt `n` is made if and only if each one before it fails with a try left, the context alive, a backoff given, the caller's consent, and time for the wait in what is allowed and in the context |
| Retry.SucceedsIff | pkgs/retry/retry.go:228-281 | the loop succeeds if and only if it reaches an attempt that does; every other end it comes to has its reason, its moment and its number of notifications |
| Retry.Retry | pkgs/retry/retry.go:198-282 | the loop reports what the rounds give |
| Base64.EncodeBase64 | pkgs/email/smtp.go:176-208 | the loop over chunks gives the encoding of section 4 of RFC 4648 |
| Base64.BitsAreArithmetic | pkgs/email/smtp.go:186-202 | the shifts and masks of the encoder equal the divisions and remainders used here, on all bytes |
| Base64.RoundTrip | pkgs/email/smtp.go:176-208 | the standard decoder, which refuses stray bits and misplaced pads, returns the input |
| Base64.Injective | pkgs/email/smtp.go:176-208 | different bytes have different encodings |
| Base64.Shape | pkgs/email/smtp.go:177-204 | 4·⌈n/3⌉ characters, all from the alphabet, with the right number of pads at the very end |
| Filters.NormalizeValues | pkgs/utils/filter/filter.go:101-119 | the array's front becomes the filter-map of what the array held; the rest keeps what it held |
| Filters.NormalizeKeeps | pkgs/utils/filter/filter.go:165-305 | what is kept is the value or what it points to, and exactly which values are dropped |
| Filters.SettlesIff | pkgs/utils/filter/filter.go:165-305 | which values come out of a second normalisation as they went in, exactly |
| Filters.RepeatableIff | pkgs/query/gorm.go:124-145 | without nested pointers, a second pass leaves the first slice and the set of values alone if and only if the values it drops stand last and the places behind put them back in order |
| Filters.OneIsRepeatableIff | pkgs/utils/filter/filter.go:165-305 | for a single value: if and only if it settles |
| Filters.SettledIsRepeatable | pkgs/query/gorm.go:124-145 | arrays whose values all settle can be normalised again |
| Filters.ListThenCount | pkgs/query/gorm.go:29-36 | the count query leaves the slice bound by the list query alone, and filters by the same values, if and only if the array allows it |
| Filters.NilSliceIsLost | pkgs/utils/filter/filter.go:283-297 | a pointer to a nil slice is dropped by the second pass |

## Left out

- ErasureCode.MDS: the arithmetic of Reed-Solomon over a Galois field is not modelled; the law is asked of the codec.
- Engine.Engine.DeleteObject: the not-found answer when removing fails on every disk is not modelled.
- Engine.Engine.PutObject: a disk that fails between the metadata and the part of one object is not modelled; a disk's share is written wholly or not at all.
- Engine.Engine.New: creating the directories is not modelled.
- Engine.Engine.CutPage: `start + maxKeys` is unbounded; the overflow of a limit near the largest integer is not modelled.
- ClientSigner.SidesAgreeIff: the path is taken as already encoded and equal on both sides; how the client computes it is not modelled.
- ClientSigner.Signer.constructor: signing in the query string, guessing service and region, and the cache of signing keys are not modelled; header text is ASCII, and parameters are the bytes of valid UTF-8; what the client reads in a query that the server cannot read is left open.
- AuthHeaders.ParseAuthorization: trimming knows the white space of ASCII only.
- Base64.EncodeBase64: shifts and masks of bytes are written as division and remainder, as `Base64.BitsAreArithmetic` allows.
- Filters.ListThenCount: a custom filter receives the whole compacted array, stale tail included; custom filters are not modelled. The condition on the array is given for arrays without pointers to pointers.
- Retry.Retry: the backoff library's intervals are arbitrary non-negative durations, or a stop; with no limit on tries the loop is observed up to a number of attempts that can be chosen freely.
- EntityCache.EntityCache.MGetOrLoad: the fallback that decodes a value with one more GET is not modelled; SHA-1 in the flight's name is taken as injective.
- EntityCache.EntityCache.GetOrLoad: the source stands still during the call; `LateFill` has the case in which it does not.
- HashTags.BaseCache.MSet: times to live are left out.
- TemplateRoundTrip.AnyCodesRoundTrip: codes that hold a line break or an end of a comment are not covered.
- CounterLedger.CounterCache.ScanAndConsume: 64-bit overflow, values that are no numbers, and errors of SCAN itself are not modelled; the pattern is matched as a prefix, so prefixes and names hold no glob characters.
- Versions.BoundedStaleness: errors of Redis, and the old value served on such errors, are not modelled.
- Keys.KeyBuilder.CounterKeyInverts: the version suffix is a constant while a key is printed and parsed.
- Groups.Service.SetPolicyMultiple: the users' part, one column of one row for each user, is not modelled.
- Groups.Service.SetUserGroups: failures of the database, which the code ignores, are not modelled.
- Templates.CollectFromFile: reading and walking files is not modelled.
- `ListBuckets` and `Usage`: plain sums and filters over the listing that is modelled.
- Keys for lists, indexes and pages, hash operations, publishing and typed getters of the cache.
- Servers, routers, the console's user interface, token handling, mail sending and configuration.
