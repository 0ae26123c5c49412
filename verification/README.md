# Verification of the bot platform's stateful core

Dafny models of the parts of the platform that keep state, and proofs about every input,
every run or every interleaving of them. `dafny verify dfyconfig.toml` checks everything.

One module per component, hardest first.

- **Audit ledger.** `AuditHash`, `AuditChain`, `AuditAppend`, `AuditOvertake`,
  `AuditRepository`, `AuditRetention`. Entries of a chain are hashed over their content and the hash before
  them. Appenders of several processes read the tail, insert under unique indexes and retry;
  a step is one database call, and a run is any interleaving. Retention archives and prunes a
  prefix; the archive's hash anchors what is left. The digest is a parameter without
  collisions, and what it is applied to is the canonical JSON of the record.
- **Encoders.** `Utf16`, `JsonText`, `CanonicalJson`, `AuditExport`: JSON text, the canonical
  form that is hashed, and the CSV export with a reader for it.
- **Caches.** `RecencyList`, `LruStore`, `TwoLevelCache`: a map over a doubly linked list on
  the heap against a plain list in order of last use, and two levels against one map with
  expiry times.
- **Permissions.** `Claims`, `PermissionResolver`: the order of wildcard claims, and the walk
  over inherited groups that decides.
- **Dependency orders.** `DependencyOrder`, `ModuleRegistry`, `PluginOrder`.
- **Scheduler.** `Maintenance`: deferral past recurring windows. `Scheduling`: rows, the
  queue's registry of repeatable jobs and the reconciler between them.
- **Notification delivery.** `Delivery`: one delivery, its retries, and any number of
  cancellations, whose read, write and removal of the job may each come between any two steps.
- **Blob storage.** `Storage`: dedupe, usage and quota, and the bytes.
- **Address filter.** `Cidr`.

Where the code changes objects in place the model is a class whose methods are proved against
functions on values, and the theorems are about those functions.

## Where the code does not keep what it promises

Most of these are proved as an if and only if, named first, with a concrete run beside it
where that helps.

- The unique key of the audit table does not compare absent guilds, so two processes can fork
  the global chain, wherever it stands (`AuditAppend.SafeExactlyWhenGuardedOrAlone`,
  `AuditAppend.GlobalChainForks`).
- Paging over a chain loses the rows that repeat the seq a full page ends with
  (`AuditRepository.PagingIsCompleteExactlyWhen`). So verification answers about the rows read
  (`AuditRepository.StoredIsIntactExactlyWhen`), and a fork of the 500th entry, which a race
  reaches, is not found (`AuditRepository.ForkCanVerify`, `AuditAppend.ForkIsReachedAndVerifies`).
- A retention sweep without archiving breaks verification unless it removes nothing or
  everything (`AuditRetention.UnarchivedSweepVerifies`).
- The canonical form drops `__proto__` (`CanonicalJson.ProtoEntryIsLost`), so two records that
  differ only there hash alike; equality of data is defined accordingly.
- A cache write with a lifetime that is not positive, or to Redis alone, can leave an old value
  to be read (`TwoLevelCache.SetMirrorsExactlyWhen`).
- The instant a maintenance window opens counts as outside it, against the comment on the
  lookup (`Maintenance.DocumentedExactlyWhen`); and windows that recur too often exhaust the
  bound of the loop (`Maintenance.PeriodicIsClearedExactlyWhen`, `Maintenance.BoundCanRunOut`).
- The key meant for replacing a schedule also counts deleted rows, so replacing a guild's
  schedule removes the old one and then fails, and the tuple stays taken for good
  (`Scheduling.ScheduleSucceedsExactlyWhen`, `Scheduling.TupleStaysTaken`).
- The queue may list a job without the schedule's id, and the pass then files it under its key:
  an active row's own job is not found, added again and removed as an orphan, so that passes
  alternate (`Scheduling.ConvergesExactlyWhen`, `Scheduling.SecondPassChangesNothingExactlyWhen`,
  `Scheduling.PassesAlternate`).
- An interval row keeps whatever job is listed with its id (`Scheduling.IntervalRowExactlyWhen`).
- A recurring schedule whose run fails for good is unscheduled by the next reconcile pass
  (`Scheduling.RegisteredAfterRunExactlyWhen`). Of several jobs with one id a pass would see
  only the one listed last (`Scheduling.SurvivesExactlyWhen`); no run of the modelled calls
  gets there (`Scheduling.AtMostOneRepeatable`).
- A cancellation during an attempt is overwritten (`Delivery.CancelHoldsExactlyWhen`), and can
  leave a delivery failed with no job (`Delivery.EndsExactlyWhen`, `Delivery.CancelCanStrand`):
  the code reads the pending rows and writes them in two calls, and pulls the jobs it read.
- The attempts a row records exceed the provider calls once a render has failed before a call
  (`Delivery.EveryRunIsBounded`, `Delivery.AttemptsCanExceedCalls`).
- One deletion takes a deduplicated object from every holder, and its bytes are then never
  collected (`Storage.OrphanedExactlyWhen`, `Storage.DeletedStays`). A guild with an empty name
  is not counted (`Storage.UsageIsExactExactlyWhen`).
- A prefix length that is not a number admits the whole address family
  (`Cidr.MalformedLengthIsLengthZero`), and an embedded dotted quad is misread
  (`Cidr.DottedQuadIsMisread`).

## Model

| member | source | states |
|---|---|---|
| AuditAppend.EveryInterleavingIsSafe | src/modules/audit/jobs/audit-ingest.processor.ts:138-176 | in every interleaving of any number of appenders, where the seq index binds or one process runs, the rows are the initial chain plus exactly the drafts reported stored, linked and without gaps; every submitted draft is stored, failed or queued, in order; a failure needs five rows stored meanwhile; a process alone inserts from the present tail, is never refused and never fails |
| AuditAppend.SafeExactlyWhenGuardedOrAlone | prisma/schema.prisma:779 | with absent guilds not compared by the unique key, every run from an intact chain keeps it intact if and only if the chain has a guild or there is at most one process |
| AuditAppend.GlobalChainForks | src/modules/audit/infrastructure/audit.repository.ts:76-122 | on any intact chain without a guild, two processes that read one tail at once both store the next seq, and what is stored is intact under no anchor |
| AuditAppend.ForkIsReachedAndVerifies | src/modules/audit/application/audit.service.ts:87-118 | from an intact global chain of 499 entries that race stores the 500th seq twice, and verification says valid |
| AuditAppend.ComputeHashBindsSeq | src/modules/audit/domain/audit-chain.service.ts:29-56 | hashes of different seqs differ, so the unique hash index never refuses a row whose seq is free |
| AuditAppend.OnlyTheTailIsFree | src/modules/audit/jobs/audit-ingest.processor.ts:138-160 | a seq computed from a stale tail is taken, and one computed from the current tail is not |
| AuditOvertake.FiveRowsCanFail | src/modules/audit/jobs/audit-ingest.processor.ts:138-160 | from any intact chain, an append that another process overtakes five times fails, so the five rows are exact |
| AuditAppend.InsertKeeps | src/modules/audit/infrastructure/audit.repository.ts:76-122 | one insert, stored or refused by the unique indexes, keeps the invariant of all processes |
| AuditAppend.IngestProcessor.AppendWithRetry | src/modules/audit/jobs/audit-ingest.processor.ts:138-160 | alone, the retry loop stores the draft behind the tail of whatever chain there is, forked ones included, unless its hash is already stored, when five attempts change nothing |
| AuditChain.Verify | src/modules/audit/domain/audit-chain.service.ts:64-112 | valid exactly when every entry rehashes, follows its predecessor and starts the chain or continues the anchor; otherwise the reported seq is that of the first entry where this stops, and nothing after it was read |
| AuditChain.TailHashFixesChain | src/modules/audit/domain/audit-chain.service.ts:29-112 | two chains that verify from one first seq and end in one hash have the same length and agree in every hashed field |
| AuditChain.TamperingIsDetected | src/modules/audit/domain/audit-chain.service.ts:64-112 | a chain changed, shortened or lengthened that keeps its first seq and tail hash verifies under no anchor |
| AuditChain.AgreeFromEnd | src/modules/audit/domain/audit-chain.service.ts:78-102 | counted from the end, entry by entry, equal tail hashes force equal entries, for any hash that commits to what it covers |
| AuditRepository.IntactIsReplay | src/modules/audit/domain/audit-chain.service.ts:64-112 | a chain from seq 1 is intact, whatever the anchor, if and only if appending its drafts one after the other makes the very same chain |
| AuditHash.HashDeterminesRecord | src/modules/audit/domain/audit-chain.service.ts:29-56 | with a collision-free digest, equal hashes mean the same draft in all hashed fields, the same seq and the same previous hash |
| AuditHash.ComputeHashIsBinding | src/modules/audit/domain/audit-chain.service.ts:29-56 | `computeHash` is a commitment in the sense the chain theorems need |
| AuditHash.HashDeterminesSeq | src/modules/audit/domain/audit-chain.service.ts:29-56 | for arbitrary payloads, even ones that are not JSON data, the hash commits to the seq |
| AuditRepository.Repository.Append | src/modules/audit/infrastructure/audit.repository.ts:76-122 | inserts in seq order or refuses exactly on a unique index, and then changes nothing |
| AuditRepository.Repository.FindLast | src/modules/audit/infrastructure/audit.repository.ts:124-133 | the row with the greatest seq |
| AuditRepository.Repository.FirstSeq | src/modules/audit/infrastructure/audit.repository.ts:246-256 | the least seq |
| AuditRepository.Repository.FindBySeq | src/modules/audit/infrastructure/audit.repository.ts:258-267 | a row with the seq, exactly when there is one |
| AuditRepository.Repository.FirstSeqAtOrAfter | src/modules/audit/infrastructure/audit.repository.ts:269-285 | the first row not older than the cutoff, with every earlier row older |
| AuditRepository.Repository.IterateChainRange | src/modules/audit/infrastructure/audit.repository.ts:203-225 | the cursor loop yields what the paging theorems are about; with distinct seqs that is every row of the range once and in order, for any page size |
| AuditRepository.IteratedIsComplete | src/modules/audit/infrastructure/audit.repository.ts:196-225 | the paged loop yields exactly the rows in the range |
| AuditRepository.RowsWithinMeans | src/modules/audit/infrastructure/audit.repository.ts:203-225 | a row is in a range if and only if its seq is above the one bound and not above the other, as often as it is stored |
| AuditRepository.PagingNeedsUniqueSeqs | src/modules/audit/infrastructure/audit.repository.ts:203-225 | paging is complete whatever the page size if and only if the seqs in the range are distinct |
| AuditRepository.PagingIsCompleteExactlyWhen | src/modules/audit/infrastructure/audit.repository.ts:203-225 | for any one page size, paging yields every row of the range if and only if no page starts with the seq of the row before it |
| AuditRepository.PagesOfTheCode | src/modules/audit/infrastructure/audit.repository.ts:203-225 | at 500 rows a page, a row that repeats the seq of the 500th is never read, and two rows alone with one seq are both read |
| AuditRepository.Repository.FindAnchor | src/modules/audit/infrastructure/audit.repository.ts:287-299 | the last archive among those that end at the seq, or none if none does |
| AuditRepository.Repository.CreateArchive | src/modules/audit/infrastructure/audit.repository.ts:301-315 | the archive is the newest of its chain; no other chain changes |
| AuditRepository.Repository.PruneUpTo | src/modules/audit/infrastructure/audit.repository.ts:317-327 | removes exactly the rows up to the bound and counts them |
| AuditRepository.Repository.ChainHeads | src/modules/audit/infrastructure/audit.repository.ts:234-243 | every chain that has rows, once |
| AuditRepository.Repository.VerifyChain | src/modules/audit/application/audit.service.ts:87-118 | for any stored chain, with the anchor below the first seq: valid exactly when the rows that paging reads link and rehash; otherwise the reported seq is that of the first of them at which this stops. With distinct seqs they are all the rows |
| AuditRepository.StoredIsIntactExactlyWhen | src/modules/audit/application/audit.service.ts:87-118 | the stored chain is intact if and only if the rows that paging reads are and no page starts with the seq of the row before it |
| AuditRepository.ForkCanVerify | src/modules/audit/application/audit.service.ts:87-118 | an intact chain of 500 entries whose last seq was stored twice is found valid, although what is stored is not intact |
| AuditRetention.EveryHistoryVerifies | src/modules/audit/domain/retention.service.ts:72-146 | after any history of appends and archiving sweeps, stopped anywhere, the chain verifies against its newest anchor and has no gaps |
| AuditRetention.EveryHistoryIsFoundValid | src/modules/audit/application/audit.service.ts:87-118 | after any such history, for any page size, the rows that verification reads are all the rows, and they are intact from the anchor it looks up |
| AuditRetention.VerifyHistory | src/modules/audit/application/audit.service.ts:87-118 | so the answer is valid, with every row checked |
| AuditRetention.ArchivingSweepKeepsVerifying | src/modules/audit/domain/retention.service.ts:94-145 | a sweep that archives first, completed or stopped between archive and prune, leaves a chain that verifies |
| AuditRetention.UnarchivedSweepVerifies | src/modules/audit/domain/retention.service.ts:91-145 | without archiving, a sweep keeps the chain verifying if and only if it removes nothing or everything, or an older archive already holds the boundary hash |
| AuditRetention.FullPruneRestarts | src/modules/audit/domain/retention.service.ts:72-146 | a chain pruned to nothing starts again at seq 1 and verifies |
| AuditRetention.SuffixIntact | src/modules/audit/domain/audit-chain.service.ts:75-102 | what is left of an intact chain verifies exactly from an anchor with the last removed seq and hash |
| AuditRetention.RetentionService.SweepChain | src/modules/audit/domain/retention.service.ts:38-146 | of any chain, a completed sweep removes exactly the rows up to whose seq every entry is older than `now` less the retention, in days of 86400000 milliseconds; a stopped one removes none; no other chain changes |
| AuditRetention.SweepPrunesByAge | src/modules/audit/domain/retention.service.ts:38-146 | the same of the sweep as a function, for every place it may stop |
| AuditRetention.SweepKeepsYoung | src/modules/audit/domain/retention.service.ts:38-40 | no sweep, completed or stopped, removes an entry younger than the retention |
| AuditRetention.ArchiveAnchors | src/modules/audit/domain/retention.service.ts:116-126 | the archive names the first and the last entry it covers, their number and the hash of the last |
| AuditRetention.PrunableMeans | src/modules/audit/domain/retention.service.ts:19-24 | a row is pruned if and only if every entry up to its seq is past retention |
| AuditRetention.RetentionService.RemovePrefix | src/modules/audit/domain/retention.service.ts:94-146 | archive before prune; an exception leaves the rows as they were |
| AuditRetention.RetentionService.PruneBound | src/modules/audit/domain/retention.service.ts:77-92 | the bound covers exactly the prunable rows, none of which shares its seq with a row that is kept |
| AuditRetention.RetentionService.SweepHeads | src/modules/audit/domain/retention.service.ts:46-64 | the loop sweeps each listed chain once and no other, and counts the rows lost |
| AuditRetention.RetentionService.Run | src/modules/audit/domain/retention.service.ts:42-70 | every chain is swept once, one failing does not stop the others, the counts are those of the rows lost, and no chain loses an entry younger than its retention |
| CanonicalJson.CanonicalDecidesSame | src/modules/audit/domain/canonical-json.ts:8-29 | equal strings exactly for equal data, objects compared as maps |
| CanonicalJson.NormalDecidesSame | src/modules/audit/domain/canonical-json.ts:12-29 | normal forms agree exactly when the data do: blanks are one value, dates say their ISO text, bigints their numeral, objects are maps |
| CanonicalJson.DatesDiffer | src/modules/audit/domain/canonical-json.ts:17 | dates with different ISO texts have different strings, each the quoted text |
| CanonicalJson.BigintsDiffer | src/modules/audit/domain/canonical-json.ts:14 | different bigints have different strings, each the quoted numeral |
| CanonicalJson.KeysInOrder | src/modules/audit/domain/canonical-json.ts:20-27 | keys come as the engine lists them: index numerals first, by value, then the others in code-unit order |
| CanonicalJson.InsertionOrderIrrelevant | src/modules/audit/domain/canonical-json.ts:20-27 | the order in which keys were inserted does not show |
| CanonicalJson.NormaliseTwice | src/modules/audit/domain/canonical-json.ts:12-29 | normalising a normal form changes nothing |
| CanonicalJson.ProtoEntryIsLost | src/modules/audit/domain/canonical-json.ts:20-27 | an entry under `__proto__` never reaches the string |
| CanonicalJson.Normalise | src/modules/audit/domain/canonical-json.ts:12-29 | the recursion and its loops compute the normal form |
| CanonicalJson.NormaliseObject | src/modules/audit/domain/canonical-json.ts:20-27 | writing sorted keys one by one into an object gives the fields in own-property order |
| CanonicalJson.CanonicalJsonOf | src/modules/audit/domain/canonical-json.ts:8-10 | the canonical text |
| JsonText.StringifyInjective | src/modules/audit/domain/canonical-json.ts:8-10 | JSON text determines the value |
| JsonText.QuoteIsRead | src/modules/audit/domain/canonical-json.ts:8-10 | a reader by section 7 of RFC 8259 gives back every quoted string |
| JsonText.TextsOfValues | src/modules/audit/domain/canonical-json.ts:8-10 | the names and brackets of RFC 8259 |
| JsonText.ShortEscapes | src/modules/audit/domain/canonical-json.ts:8-10 | the short escapes of the serialiser |
| JsonText.OtherUnits | src/modules/audit/domain/canonical-json.ts:8-10 | other controls and lone surrogates are escaped by number, anything else stands for itself |
| JsonText.TextOfObject | src/modules/audit/domain/canonical-json.ts:8-10 | fields are quoted keys, colons and values between commas |
| JsonText.StringifyUnambiguous | src/modules/audit/domain/canonical-json.ts:8-10 | reading a value off the front of a text is unambiguous, whatever follows |
| AuditExport.CsvRoundTrip | src/modules/audit/infrastructure/audit-export.writer.ts:133-156 | a reader with the quoting rules of RFC 4180 recovers every row and cell, whatever the texts hold |
| AuditExport.BareExactlyWhen | src/modules/audit/infrastructure/audit-export.writer.ts:133-141 | a text is written as it is if and only if it has no quote, comma or line mark |
| AuditExport.ToCsv | src/modules/audit/infrastructure/audit-export.writer.ts:143-156 | the file is read back as the header and, for each entry, nothing for an absent cell, the text of a plain one and the JSON text of data |
| AuditExport.ToCsvWith | src/modules/audit/infrastructure/audit-export.writer.ts:143-156 | the same for any header that needs no quoting |
| AuditExport.ReadCell | src/modules/audit/infrastructure/audit-export.writer.ts:133-141 | a quoted or plain cell is read back as its text, up to the mark that ends it |
| LruStore.MemoryCacheStore.Get | src/cache/stores/memory-cache.store.ts:31-45 | acts on the recency list as a plain list would: a hit moves to the front, an expired entry goes, and the counters say so |
| LruStore.MemoryCacheStore.Set | src/cache/stores/memory-cache.store.ts:47-59 | replaces in place and moves to the front, or inserts and evicts the last entry when there are too many |
| LruStore.MemoryCacheStore.Delete | src/cache/stores/memory-cache.store.ts:61-65 | removes the key from list and map |
| LruStore.MemoryCacheStore.DeleteByPrefix | src/cache/stores/memory-cache.store.ts:67-76 | removes exactly the keys with the prefix while walking the map, and counts them |
| LruStore.MemoryCacheStore.Has | src/cache/stores/memory-cache.store.ts:78-86 | whether the key is live; an expired entry goes |
| LruStore.MemoryCacheStore.EvictAt | src/cache/stores/memory-cache.store.ts:88-92 | map, links and list lose the same node |
| LruStore.MemoryCacheStore.EvictTail | src/cache/stores/memory-cache.store.ts:94-96 | the last entry of the list goes, if there is one |
| LruStore.MemoryCacheStore.AddToHead | src/cache/stores/memory-cache.store.ts:98-104 | the node is in front, with inverse links |
| LruStore.MemoryCacheStore.MoveToHead | src/cache/stores/memory-cache.store.ts:106-109 | the node moves to the front, the others keep their order |
| LruStore.MemoryCacheStore.RemoveNode | src/cache/stores/memory-cache.store.ts:111-118 | the node is unlinked and the links around it are inverse again |
| LruStore.IndexSize | src/cache/stores/memory-cache.store.ts:18-22 | the map holds exactly the nodes of the list: it has as many keys as there are nodes |
| RecencyList.ListIsByLastUse | src/cache/stores/memory-cache.store.ts:31-59 | after any operations the list is in order of last use, so what is evicted is what was used longest ago |
| RecencyList.FindAfterSet | src/cache/stores/memory-cache.store.ts:48-59 | after a write the key has what was written, and every other key what it had, unless the key is new, the list full and the other key its last |
| RecencyList.LastWriteIsFound | src/cache/stores/memory-cache.store.ts:31-94 | in every history what is found of a key is the last entry written, and it is found until it is deleted, met after its expiry, or `maxItems` other keys have been used since |
| RecencyList.WithoutSomeStep | src/cache/stores/memory-cache.store.ts:67-76 | removing by prefix may be done a key at a time |
| TwoLevelCache.FirstLevelIsInvisible | src/cache/cache.service.ts:24-34 | with positive lifetimes and writes to both levels, any run of get, set, delete and has is answered as one map with expiry times answers it |
| TwoLevelCache.SetMirrorsExactlyWhen | src/cache/cache.service.ts:62-77 | after a write the levels still stand for that map if and only if the write reaches Redis or finds nothing live there, and leaves no live first-level entry beside it |
| TwoLevelCache.MissedSetIsSeen | src/cache/cache.service.ts:62-77 | otherwise the next read of the key is stale |
| TwoLevelCache.ExpiredWriteLeavesOldValue | src/cache/stores/redis-cache.store.ts:23-31 | a write with lifetime zero leaves the overwritten value to be read |
| TwoLevelCache.GetMirrors | src/cache/cache.service.ts:24-34 | promotion into the first level keeps the levels in agreement |
| TwoLevelCache.ReadIsPromoted | src/cache/cache.service.ts:24-34 | what a read finds in either level is in the first level afterwards |
| TwoLevelCache.WriteIsFirstLevel | src/cache/cache.service.ts:62-77 | so is what is written to both levels |
| TwoLevelCache.DeleteMirrors | src/cache/cache.service.ts:79-81 | removal keeps the levels in agreement |
| TwoLevelCache.CacheService.Get | src/cache/cache.service.ts:24-34 | the first level's hit or else Redis's, which is then promoted |
| TwoLevelCache.CacheService.Set | src/cache/cache.service.ts:62-77 | both levels are written, or Redis alone |
| TwoLevelCache.CacheService.Delete | src/cache/cache.service.ts:79-81 | both levels lose the key |
| TwoLevelCache.CacheService.Has | src/cache/cache.service.ts:96-98 | whether either level has the key live |
| TwoLevelCache.RedisCacheStore.Set | src/cache/stores/redis-cache.store.ts:23-31 | an entry that is already expired is not written and leaves the old one |
| Claims.CoversIsBySegments | src/core/permissions/domain/claim.value-object.ts:26-34 | the test on the text is segment-wise covering |
| Claims.CoversIsInclusion | src/core/permissions/domain/claim.value-object.ts:26-34 | one claim covers another if and only if it covers every single permission the other covers |
| Claims.CoversTransitive | src/core/permissions/domain/claim.value-object.ts:26-34 | covering is transitive |
| Claims.CoversAntisymmetric | src/core/permissions/domain/claim.value-object.ts:26-34 | claims that cover each other are the same |
| Claims.CoveringIsLessSpecific | src/core/permissions/domain/claim.value-object.ts:37-41 | a claim that covers a different one is strictly less specific |
| Claims.CoversNeverTie | src/core/permissions/domain/claim.value-object.ts:37-41 | two different claims that cover one claim differ in specificity |
| Claims.PatternIsWellformed | src/core/permissions/domain/claim.value-object.ts:14-15 | the pattern accepts exactly names between dots, the last one possibly the wildcard |
| Claims.ParseMeans | src/core/permissions/domain/claim.value-object.ts:19-23 | white space goes from both ends and letters to lower case; the rest is accepted if and only if its segments are names, the last possibly the wildcard; the error names the text as given |
| Claims.ParseTwice | src/core/permissions/domain/claim.value-object.ts:19-23 | parsing what parsing returned changes nothing |
| Claims.DottedPrefix | src/core/permissions/domain/claim.value-object.ts:29-32 | a prefix of the text up to a dot is a proper prefix of the segments |
| PermissionResolver.ResolveDecides | src/core/permissions/domain/permission-resolver.service.ts:17-80 | whenever it returns, access is granted if and only if the member is an owner or some covering grant among the reachable groups is more specific than every covering denial there; the reason is global exactly for owners and otherwise names a most specific match |
| PermissionResolver.WalkVisitsReachable | src/core/permissions/domain/permission-resolver.service.ts:91-134 | the walk visits exactly the reachable groups, whatever cycles there are |
| PermissionResolver.ResolveReturns | src/core/permissions/domain/permission-resolver.service.ts:22-27 | an owner always gets an answer; anyone does with valid claims and no more reachable groups than the limit |
| PermissionResolver.LimitIsTight | src/core/permissions/domain/permission-resolver.service.ts:100-105 | whatever the limit, a line of one group more, the last its own parent, exceeds it |
| PermissionResolver.ErrorsAreJustified | src/core/permissions/domain/permission-resolver.service.ts:100-114 | an error means an invalid claim of a reachable group or a line of inheritance longer than the limit |
| PermissionResolver.TieIsSameClaim | src/core/permissions/domain/permission-resolver.service.ts:55-66 | a grant and a denial that tie are of the very same claim |
| PermissionResolver.GrantsBest | src/core/permissions/domain/permission-resolver.service.ts:40-48 | going through the grants keeps the most specific match of each effect, of equals the earlier |
| PermissionResolver.StartKeysAreStarts | src/core/permissions/domain/permission-resolver.service.ts:82-89 | the default groups and those of the member's roles, once each |
| PermissionResolver.ByPriorityIsFalling | src/core/permissions/domain/permission-resolver.service.ts:32-35 | the starting groups are walked in falling priority |
| PermissionResolver.ByPriorityIsStable | src/core/permissions/domain/permission-resolver.service.ts:32-35 | groups of one priority keep their order |
| PermissionResolver.ResolveClaim | src/core/permissions/domain/permission-resolver.service.ts:17-80 | owners are allowed at once; otherwise the loop over the starting groups computes the decision the theorems are about |
| PermissionResolver.ResolveGroupKeys | src/core/permissions/domain/permission-resolver.service.ts:82-89 | exactly the starting keys, without repetition |
| PermissionResolver.Walker.WalkGroup | src/core/permissions/domain/permission-resolver.service.ts:91-134 | the recursive walk over the shared visited set and best matches is the specified walk, errors included |
| PermissionResolver.Walker.Record | src/core/permissions/domain/permission-resolver.service.ts:40-48 | keeps the first of the most specific matches |
| DependencyOrder.OrderSucceedsExactlyWhen | src/core/module-system/module-registry.ts:38-62 | visiting every node succeeds if and only if the graph is closed and acyclic; then every node comes once after its dependencies, and otherwise the error names a culprit |
| DependencyOrder.VisitExtends | src/core/module-system/module-registry.ts:43-58 | a visit adds nodes after their dependencies and never one being visited |
| DependencyOrder.VisitBlames | src/core/module-system/module-registry.ts:44-51 | the error is about a node on a cycle or an absent dependency |
| DependencyOrder.OrderedIsAcyclic | src/core/module-system/module-registry.ts:38-62 | an order of the whole graph leaves no cycle |
| ModuleRegistry.Registry.ResolveInitOrder | src/core/module-system/module-registry.ts:38-62 | succeeds if and only if every dependency is registered and there is no cycle; then every module once, after the modules it depends on |
| ModuleRegistry.Registry.Register | src/core/module-system/module-registry.ts:16-28 | a second registration of an id is ignored, a first one comes last |
| ModuleRegistry.InitWalk.Visit | src/core/module-system/module-registry.ts:43-58 | the recursive visit over shared sets is the specified one |
| PluginOrder.TopologicalOrder | src/core/plugins/domain/plugin-dependency.resolver.ts:47-78 | succeeds if and only if the given plugins have no dependency cycle among them; then the first manifest of every name once, after its dependencies |
| PluginOrder.OrderWalk.Visit | src/core/plugins/domain/plugin-dependency.resolver.ts:53-74 | the recursive visit, which skips names that are not given, is the specified one |
| PluginOrder.GraphIsClosed | src/core/plugins/domain/plugin-dependency.resolver.ts:64-69 | dependencies outside the given names are ignored, so none is ever unknown |
| PluginOrder.EdgesAre | src/core/plugins/domain/plugin-dependency.resolver.ts:48-69 | the first manifest of a name depends on exactly the given names that it lists |
| Maintenance.DeferralMeans | src/modules/scheduler/domain/scheduler.domain-service.ts:88-113 | a run that is not deferrable stays; any other is deferred if and only if it is due inside a deferrable window, never earlier, and only past instants inside such windows |
| Maintenance.DeferralSkipsOnlyWindows | src/modules/scheduler/domain/scheduler.domain-service.ts:88-113 | never earlier, every skipped instant lies inside a deferrable window, and a clear result is the least clear instant |
| Maintenance.TwiceBlockingWindowsAreCleared | src/modules/scheduler/domain/scheduler.domain-service.ts:99-111 | if no deferrable window begins three times within twice the total of all durations, each blocks at most twice, the bound is never reached and the result is the least clear instant |
| Maintenance.SparseWindowsAreCleared | src/modules/scheduler/domain/scheduler.domain-service.ts:99-111 | if none recurs within the total of all durations, each blocks at most once and as many rounds as there are windows are enough |
| Maintenance.PeriodicIsClearedExactlyWhen | src/modules/scheduler/domain/scheduler.domain-service.ts:99-112 | a single deferrable window that opens at a fixed period is cleared if and only if it lasts no longer than its period |
| Maintenance.BoundCanRunOut | src/modules/scheduler/domain/scheduler.domain-service.ts:101-112 | a window that opens every minute and lasts two exhausts the bound, and the run lands inside it whenever it was due |
| Maintenance.ContainsMeans | src/modules/scheduler/domain/maintenance-window.vo.ts:33-46 | inside means strictly after a start and before its end |
| Maintenance.DocumentedExactlyWhen | src/modules/scheduler/domain/maintenance-window.vo.ts:29-41 | the test agrees with its description, by which a window covers its opening instant, if and only if the window has no duration, does not open at the instant or is still open from before |
| Maintenance.ResolveAgainstMaintenance | src/modules/scheduler/domain/scheduler.domain-service.ts:88-113 | the bounded loop computes the deferral the theorems are about |
| Scheduling.EveryRunStaysInStep | src/modules/scheduler/application/scheduler.service.ts:146-268 | in every run of scheduling, cancelling, pausing, resuming, worker outcomes, guild deletions, edits, queue losses and reconcile passes over any listing, every registered job belongs to a recurring row that is neither paused nor deleted and remembers exactly this job |
| Scheduling.AtMostOneRepeatable | src/modules/scheduler/application/scheduler.service.ts:146-268 | so each schedule id has at most one repeatable job and paused or deleted rows have none |
| Scheduling.JobsAfterPass | src/modules/scheduler/application/schedule.reconciler.ts:63-115 | the jobs a pass leaves are those listed with their id that follow their active row, and the own jobs of active rows that were not registered and keep none |
| Scheduling.ReconcileEstablishes | src/modules/scheduler/application/schedule.reconciler.ts:63-115 | over any listing a pass keeps rows and registry in step and leaves jobs of active recurring rows alone, cron rows with their pattern and time zone |
| Scheduling.RegisteredExactlyWhen | src/modules/scheduler/application/schedule.reconciler.ts:72-101 | after a pass a row has a job if and only if it is active and its own job was not listed without the schedule's id |
| Scheduling.ConvergesExactlyWhen | src/modules/scheduler/application/schedule.reconciler.ts:23-28 | a pass leaves exactly the active recurring rows registered if and only if every own job of an active row is listed with its id |
| Scheduling.PassIsReconciled | src/modules/scheduler/application/schedule.reconciler.ts:63-115 | in whatever order the active rows are selected, the pass row by row and then over the orphans is the one of these theorems |
| Scheduling.PassChangesNothingExactlyWhen | src/modules/scheduler/application/schedule.reconciler.ts:63-115 | a pass changes nothing if and only if every active row has a job and every job is listed with its id, belongs to an active row and follows it |
| Scheduling.SecondPassChangesNothingExactlyWhen | src/modules/scheduler/application/schedule.reconciler.ts:63-115 | a second pass changes nothing, in whatever order jobs are listed, if and only if the first left every active row a job and the second lists every job with its id |
| Scheduling.PassesAlternate | src/modules/scheduler/application/schedule.reconciler.ts:72-101 | while an active row's own job is listed without its id, passes remove it, add it and remove it again |
| Scheduling.ReconcileIsExact | src/modules/scheduler/application/schedule.reconciler.ts:63-115 | without edits behind the service, a pass leaves only own jobs, interval rows included; and all those of active rows if and only if their jobs are listed with their ids |
| Scheduling.OwnJobExactlyWhen | src/modules/scheduler/application/schedule.reconciler.ts:79-94 | an active row ends a pass with its own job alone if and only if its own job, if registered, is listed with the id, and any other job listed with the id does not follow it |
| Scheduling.IntervalRowExactlyWhen | src/modules/scheduler/application/schedule.reconciler.ts:132-139 | an interval row, which is never checked, does so, with all ids listed, if and only if it had no job or its own |
| Scheduling.SurvivesExactlyWhen | src/modules/scheduler/application/schedule.reconciler.ts:72-74 | in any state, a listed job stays if and only if another is listed later under its index, or it is listed with its id, its row is active and it follows that row |
| Scheduling.RegisteredAfterRunExactlyWhen | src/modules/scheduler/infrastructure/scheduler.worker.ts:118-168 | after a run and the next pass a row has a job if and only if it was active, the run did not fail its last attempt and its own job is not listed without its id |
| Scheduling.ScheduleSucceedsExactlyWhen | prisma/schema.prisma:655 | whatever the collation takes for equal: scheduling succeeds if and only if there is no guild or no row, live or deleted, has an equal tuple; replacing a guild's schedule removes it and fails |
| Scheduling.TupleStaysTaken | prisma/schema.prisma:655 | in every run, once a guild has used a tuple no later call schedules an equal one |
| Scheduling.ScheduledIsRegistered | src/modules/scheduler/application/scheduler.service.ts:146-228 | a new schedule is an active row with what was asked for, and registered by the cron in the time zone that was asked for, or without a cron by the interval, a minute if there is none |
| Scheduling.CancelMeans | src/modules/scheduler/application/scheduler.service.ts:231-245 | cancelling deletes the guild's row and ends its job, or finds no such row; nothing else changes |
| Scheduling.PauseMeans | src/modules/scheduler/application/scheduler.service.ts:247-255 | pausing ends the job of a recurring row and keeps the row |
| Scheduling.ResumeMeans | src/modules/scheduler/application/scheduler.service.ts:257-268 | resuming gives a paused row a job by its own rule |
| Scheduling.OutcomeMeans | src/modules/scheduler/infrastructure/scheduler.worker.ts:118-168 | a run changes its row's status alone: completed for a live one-shot row that succeeds, failed for a last attempt that fails |
| Scheduling.ResumeUndoesPause | src/modules/scheduler/application/scheduler.service.ts:247-268 | pausing and resuming restores rows and registry |
| Scheduling.RunsWithoutEditsStayAsDefined | src/modules/scheduler/application/scheduler.service.ts:205-228 | in every run without edits each registered job has its row's kind, and its cron and time zone or its interval |
| Scheduling.Scheduler.Schedule | src/modules/scheduler/application/scheduler.service.ts:146-202 | lookup, removal, soft delete, insert under the unique key and enqueue, in order |
| Scheduling.Scheduler.CancelJob | src/modules/scheduler/application/scheduler.service.ts:231-245 | the job leaves the queue and the row is soft-deleted, or the row is not found |
| Scheduling.Scheduler.PauseJob | src/modules/scheduler/application/scheduler.service.ts:247-255 | only recurring rows; the job leaves the queue and the row forgets it |
| Scheduling.Scheduler.ResumeJob | src/modules/scheduler/application/scheduler.service.ts:257-268 | only paused rows; the job is registered again and remembered |
| Scheduling.Scheduler.EnqueueRecurring | src/modules/scheduler/application/scheduler.service.ts:205-228 | the cron with its time zone, or without one the interval, a minute by default |
| Scheduling.Scheduler.FindByDedup | src/modules/scheduler/infrastructure/schedule.repository.ts:115-124 | a live row with an equal tuple, exactly when there is one |
| Scheduling.GuildDeletedKeeps | src/modules/scheduler/application/maintenance.handler.ts:53-70 | deleting a guild takes exactly its jobs off the queue, leaves none of its rows live and keeps the rest in step |
| Scheduling.Scheduler.OnGuildDeleted | src/modules/scheduler/application/maintenance.handler.ts:53-70 | the rows are soft-deleted, and then the jobs they remembered removed one by one |
| Scheduling.Scheduler.Process | src/modules/scheduler/infrastructure/scheduler.worker.ts:118-168 | success completes one-shot rows only; failing the last attempt marks any row failed |
| Scheduling.Scheduler.Reconcile | src/modules/scheduler/application/schedule.reconciler.ts:63-115 | for any answer of the database and any listing, the pass in the order of the code: index, rows as selected, orphans; none while another runs |
| Scheduling.Scheduler.IndexListing | src/modules/scheduler/application/schedule.reconciler.ts:72-74 | the last job listed under each id, or under the text of its key where the id is missing |
| Delivery.EveryRunIsBounded | src/modules/notifications/jobs/delivery.processor.ts:86-179 | for every provider answer and interleaving: at most `maxAttempts` calls, at most one success, and once over the row records the calls plus the renders that failed before the last one |
| Delivery.SentStays | src/modules/notifications/jobs/delivery.processor.ts:92-94 | a sent row stays sent and is never delivered again |
| Delivery.StatusIsDeserved | src/modules/notifications/jobs/delivery.processor.ts:86-179 | in every run a row is sent, failed, cancelled or dead only for its own reason among the answers, cancellations and attempts |
| Delivery.AnswerIsRecorded | src/modules/notifications/jobs/delivery.processor.ts:130-179 | what each answer makes of the row and the job |
| Delivery.CancelHoldsExactlyWhen | src/modules/notifications/infrastructure/notification.repository.ts:149-189 | a cancelled delivery stays cancelled whatever happens if and only if no attempt or exhaustion handler had read the row when it was cancelled |
| Delivery.EndsExactlyWhen | src/modules/notifications/infrastructure/notification.repository.ts:149-189 | from any state that can be reached, every run that is over ends sent, dead or cancelled if and only if no cancellation found the row pending, or still can, that may pull the job after the row has failed |
| Delivery.EveryRunEndsExactlyWhen | src/modules/notifications/infrastructure/notification.repository.ts:149-189 | from the start, if and only if the delivery has a single attempt |
| Delivery.CancellationEndsExactlyWhen | src/modules/notifications/infrastructure/notification.repository.ts:178-189 | once a cancellation has written a pending row, if and only if no attempt is between reading the row and recording a transient failure that leaves a further attempt |
| Delivery.EveryQuietRunEnds | src/modules/notifications/jobs/delivery.processor.ts:86-179 | if nothing is in flight from a cancellation's read of the row until its write, a run that is over ends sent, dead or cancelled |
| Delivery.CancelCanStrand | src/modules/notifications/infrastructure/notification.repository.ts:163-189 | a whole attempt between a cancellation's read and its write leaves the delivery failed for good, without a job |
| Delivery.AttemptsCanExceedCalls | src/modules/notifications/jobs/delivery.processor.ts:97-131 | a delivery sent with one call can record two attempts, since a render that failed is counted with it |
| Delivery.MovesAreBounded | src/modules/notifications/jobs/delivery.processor.ts:56-72 | no run, however long, moves the job more than `7 * maxAttempts + 6` times, and a run that is not over can be moved on |
| Delivery.DeliveryJob.Deliver | src/modules/notifications/jobs/delivery.processor.ts:86-179 | one attempt, with any steps of cancellations at each wait, is a run of the machine; a cancelled or sent row is left alone |
| Delivery.DeliveryJob.Await | src/modules/notifications/infrastructure/notification.repository.ts:178-189 | the read, the write and the removal of a cancellation, as separate steps of the machine |
| Delivery.DeliveryJob.TakeJob | src/modules/notifications/jobs/queues.ts:74-78 | the job is taken unless a cancellation has removed it from the queue |
| Delivery.DeliveryJob.Attempt | src/modules/notifications/jobs/delivery.processor.ts:97-179 | the row is marked and the attempt counted as the answer says, or left alone when rendering fails |
| Delivery.DeliveryJob.Call | src/modules/notifications/jobs/delivery.processor.ts:115-179 | the call's answer decides the status, over whatever the row says by then |
| Delivery.DeliveryJob.AttemptFailed | src/modules/notifications/jobs/delivery.processor.ts:65-71 | an attempt that threw is counted, and the job is exhausted at the limit |
| Delivery.DeliveryJob.OnExhausted | src/modules/notifications/jobs/delivery.processor.ts:242-255 | an exhausted delivery is dead unless sent or cancelled |
| Storage.EveryRunIsInOrder | src/modules/storage/application/storage.service.ts:64-128 | in every run: usage is the total of live rows, quotas hold, live rows hold no bytes twice, every row has its bytes, references stay positive |
| Storage.UsageIsExactExactlyWhen | src/modules/storage/application/storage.service.ts:105-128 | a guild's usage is exact if and only if it has a name or no live rows, and a positive quota of a named guild is never exceeded |
| Storage.PutSucceedsExactlyWhen | src/modules/storage/application/storage.service.ts:246-284 | a store is refused if and only if the guild has a positive quota that its live objects and the new one exceed |
| Storage.EmptyNameEscapesQuota | src/modules/storage/application/storage.service.ts:246-249 | a guild with an empty name is checked but never counted |
| Storage.StoredBytesAreRead | src/modules/storage/application/storage.service.ts:85-90 | whatever happens after a store, reading the object it returned gives the stored bytes while it is live |
| Storage.PutThenGet | src/modules/storage/application/storage.service.ts:64-83 | storing returns an object of the guild's namespace with the stored bytes, and says truly whether they were there already |
| Storage.FreshRowIs | src/modules/storage/application/storage.service.ts:64-83 | a fresh object is filed under its guild or `global`, namespace and hash, with its size and one reference |
| Storage.KeyFixesHash | src/modules/storage/domain/content-hash.util.ts:14-20 | equal object keys have equal hashes, even where a guild's name runs into the path |
| Storage.ReferencesCountStores | src/modules/storage/application/storage.service.ts:64-128 | in every run the references of a row, with the one its deletion released, are as many as the successful stores that returned its id |
| Storage.OrphanedExactlyWhen | src/modules/storage/infrastructure/storage-object.repository.ts:192-200 | in every run the collector finds a row if and only if it is deleted and its bytes were stored once |
| Storage.DeleteSucceedsExactlyWhen | src/modules/storage/application/storage.service.ts:105-128 | an object can be deleted if and only if it is live and, if a guild asks, that guild's |
| Storage.DeletionReleases | src/modules/storage/application/storage.service.ts:105-128 | deletion takes one object and its bytes from its guild's usage and touches no other |
| Storage.DeletionEndsAccess | src/modules/storage/application/storage.service.ts:105-128 | one deletion ends every holder's access, however often the bytes were stored |
| Storage.DeletedStays | src/modules/storage/infrastructure/storage-object.repository.ts:142-156 | in every run a deleted row never changes again, so a reference left on it is never released |
| Storage.StorageService.PutObject | src/modules/storage/application/storage.service.ts:64-83 | quota, dedupe or fresh write, in order |
| Storage.StorageService.AssertWithinQuota | src/modules/storage/application/storage.service.ts:260-284 | absent guilds and quota zero are unlimited; a duplicate is checked as if it were new |
| Storage.StorageService.DeleteObject | src/modules/storage/application/storage.service.ts:105-128 | marks the row, releases a reference and the usage, or does not find it in the caller's guild |
| Storage.StorageService.AddGuildUsage | src/modules/storage/infrastructure/storage-object.repository.ts:216-235 | the delta is applied, or starts the guild's usage |
| Cidr.SameNetwork | src/modules/metrics/domain/cidr.util.ts:69-78 | the masked byte loop is agreement of the addresses, as numbers, after division by 2 to the bits behind the prefix, for every prefix length |
| Cidr.MatchesIsAgree | src/modules/metrics/domain/cidr.util.ts:69-78 | the same for the byte-wise test as a function, at any number of bytes |
| Cidr.MaskedByte | src/modules/metrics/domain/cidr.util.ts:73-74 | masking clears all but the leading bits of a byte |
| Cidr.ExpansionKeepsValue | src/modules/metrics/domain/cidr.util.ts:46-67 | `::` expansion succeeds exactly when the groups fit, with 16 bytes that are the number written |
| Cidr.FullAddressKeepsValue | src/modules/metrics/domain/cidr.util.ts:46-67 | an address without `::` needs eight groups and keeps its value |
| Cidr.WrittenIsRead | src/modules/metrics/domain/cidr.util.ts:46-67 | the bytes of an address written in eight hexadecimal groups, in either case, are read back |
| Cidr.CompressedIsRead | src/modules/metrics/domain/cidr.util.ts:46-67 | so are they with any groups of zeros written as `::` |
| Cidr.DottedQuadIsMisread | src/modules/metrics/domain/cidr.util.ts:46-67 | a dotted quad at the end is read as one hexadecimal group, which is right if and only if it and the groups before it up to `::` are zero; without `::`, six groups and a quad are refused |
| Cidr.ExpandIPv6 | src/modules/metrics/domain/cidr.util.ts:46-67 | the loop over the groups computes the expansion |
| Cidr.IpInCidr | src/modules/metrics/domain/cidr.util.ts:8-24 | one family and agreement in the prefix; a bare address is a range of one |
| Cidr.MalformedLengthIsLengthZero | src/modules/metrics/domain/cidr.util.ts:11-20 | a length that is not a number admits the whole family: the same addresses as a length if and only if that is zero or less |

## Left out

- AuditRetention.RetentionService.SweepChain: an appender stalled across a prune is not interleaved with a sweep, which the code does not guard against.
- AuditAppend.IngestProcessor.AppendWithRetry: the loop is proved with the lock held and no other process; other processes are in the step machine.
- AuditRepository.Repository.FindBySeq: of rows that share a seq it takes the one stored first, which the database leaves open; it matters only to the archived hash of a forked chain.
- CanonicalJson.CanonicalDecidesSame: numbers are integers; printing of other doubles, `NaN` and infinities is not modelled, and objects with a `toJSON` method other than dates are not either.
- AuditExport.ToCsv: the JSON and NDJSON exports, and the choice of columns from an entry, are not modelled.
- LruStore.MemoryCacheStore.DeleteByPrefix: the order of the walk over the map is left open, since the outcome does not depend on it.
- TwoLevelCache.FirstLevelIsInvisible: each call sees one instant on one clock, Redis drops a key at that instant exactly, a value is identified with its JSON text, tags are dropped, and Redis errors are not modelled.
- `deleteByPrefix` of the two-level cache: Redis reads the prefix as a glob pattern, which is not modelled; the first level's is.
- `getOrSet` of the cache: the single flight over loaders is a smaller machine of its own.
- PermissionResolver.ResolveDecides: the context files each group under its own key, as the permission cache builds it; keys inherited from object prototypes and priorities that are not numbers are not modelled.
- Maintenance.ContainsMeans: the cron library is a function that gives the greatest start strictly before an instant; parsing of expressions, time zones and its errors are not modelled.
- Scheduling.EveryRunStaysInStep: calls are taken one at a time; repeat keys and their texts are unique for an id and a rule, no schedule's id is the text of a key, and an id that the queue lists is the schedule's; one-shot scheduling, immediate triggers, run records, events and metrics are left out, and one-shot rows occur only as rows.
- Scheduling.ScheduleSucceedsExactlyWhen: the collation applies to kind and idempotency key; ids of rows and guilds, which are generated, are compared exactly.
- Scheduling.Scheduler.Process: a job without a handler throws before any row is touched and is left out.
- Delivery.EveryRunIsBounded: one delivery with one job, no database failure and no stalled worker; the fan-out of a notification to deliveries is left out.
- Storage.EveryRunIsInOrder: calls are taken one at a time and the driver does not fail; content types, file names, owners, signed links, listing and the collector of orphaned bytes are left out.
- Cidr.ExpansionKeepsValue: the text is given split at `::` and at colons; trimming, the removal of the `::ffff:` prefix, zone names and the library's own address checks are left out, and so are prefix lengths with a fraction.
- Controllers, guards, gateways, OAuth, configuration schemas and message rendering are input and output around these parts.
- Prisma, Redis, BullMQ and the metrics libraries appear only as tables, maps and steps.
