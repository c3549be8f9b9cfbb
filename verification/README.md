# Verified model of Flockctl's stateful cores

Flockctl is a local daemon that runs AI coding tasks, keeps plans, missions and incidents in a SQLite database, and
can be reached from other machines with labelled bearer tokens. This project models the parts of it where state is
changed step by step, or where a fast or defensive form has to agree with a simple one, and proves what those parts
promise: over every call history, every interleaving of handlers, every crash point and every input.

`dafny verify dfyconfig.toml` checks everything.

## How the model is built

Every source file has one or more modules of its own. Code that updates state in place is a class (`RateLimiter`,
`TokenFile`, `RemoteServerFile`, `IncidentRoutes`, `MissionDb`, `Directory`, `Follower`, `BoundedStringAccumulator`) or a method
with the loop of the source; each method is proved against a function of its input or old state, and the promises are
proved about runs of those functions. Code that interleaves at `await` is a state machine: one action is what runs
between two awaits, `Exec` is a run, and actions that are not enabled change nothing.

| module | source | about |
|---|---|---|
| `RateLimit`, `RateLimitOrder`, `RateLimitExact`, `RemoteAuthGate` | `src/lib/rate-limit.ts`, `src/middleware/remote-auth.ts` | capped, windowed failure counting and its only client |
| `TokenStore` | `src/config/remote-auth.ts` | labelled tokens and the migration of the legacy token |
| `Missions`, `MissionOrigins`, `MissionEntities`, `MissionDecisions`, `MissionViews`, `MissionAnswers` | `src/routes/missions.ts`, `src/services/missions/approve-reconciler.ts` | approving and dismissing proposals over an event log |
| `RemoteServers`, `RemoteServerSaga`, `RemoteServerPatches`, `RemoteServerTokens`, `RemoteServerLeftovers` | `src/config/remote-servers.ts`, `src/routes/meta.ts` | the server list and the create, update and delete pipelines |
| `TagsCache`, `TagsCacheOrder` | `src/routes/incidents.ts` | the tag list and the cache in front of it |
| `AtomicFile` | `src/lib/fs-safe.ts` | replacing a file by temporary sibling and rename |
| `LogTail` | `src/cli-commands/logs.ts` | the backward tail and the follower |
| `BoundedString` | `src/lib/bounded-string.ts` | the accumulator that keeps a tail |
| `Timestamps` | `src/lib/normalize-timestamps.ts` | rewriting naive timestamps in a JSON tree |
| `Redaction` | `src/cli-commands/remote-bootstrap.ts` | scrubbing token-like runs |
| `DaemonStart`, `DaemonLock` | `src/cli-commands/remote-bootstrap.ts` | polling for a daemon, and sharing one attempt |
| `Slug`, `SlugChars`, `PlanPaths`, `SlugDots` | `src/lib/slugify.ts`, `src/routes/planning.ts` | slugs, the slug gate and the path behind it |
| `SafePath` | `src/lib/safe-fs-path.ts` | the directory gate over POSIX path resolution |
| `Usage`, `UsagePages` | `src/routes/usage.ts` | the grouped usage query, its totals, and reading the listings page by page |

`OrderedMap` is the JavaScript `Map` (insertion order, one value per key), `HeldOrder` what that order means over a run,
`Text` the string operations of its runtime, `Sets` a few facts about sizes of sets.

Assumptions, all visible in the lemmas that use them: a clock that is read once per call, and non-decreasing only where
a lemma says so (the mission theorems ask nothing of the times of rows); fresh random ids and temporary names; at least
one key in the limiter; primary keys are unique.

## Where the code falls short of what it promises or suggests

Each of these is proved with its exact condition; where the condition alone does not exhibit a failure, an input or a run
does.

- **A proposal can be decided more than once.** There is an `await` between the idempotency check and the insert, in
  approve (`src/routes/missions.ts:742-801`) and in dismiss (`:864-894`), whose comment rules out two rows. Overlapping
  requests bound the number of rows and reach the bound (`DecisionsAtMostOverlap`, `BoundIsReached`); at most one row
  is guaranteed if and only if the requests do not overlap (`AtMostOnceIffSerial`).
- **A proposal can be both dismissed and approved**, also by one request after the other
  (`DismissedMayStillBeApproved`). It never is if and only if no decision is written while there is one of the other
  kind, which neither handler checks (`NeverBothIffNeverCrosses`).
- **"The same id on subsequent retries"** (`src/routes/missions.ts:543-548`) holds if and only if no later row is stamped
  at or before the first one (`OnlyAnswerStaysIff`). Rows of the same second (`TiesHappen`) and a clock that steps back
  (`AnswersChange`) break it; without overlap it always holds (`SerialRetriesAgree`).
- **A PUT that moves an incident** leaves the old project's tags in the cache, and the new project's too when the body
  has no tags (`PutIsExactIffSafe`). Every such PUT shows in a run of one GET and the PUT (`UnsafePutIsSeen`).
- **`flockctl logs --tail n`** prints n + 1 lines when the file does not end in a newline and has more than n of them,
  and one empty line for an empty file (`TailIsLastLines`).
- **A limit of 0** makes the bounded accumulator and `appendBounded` keep everything, because `slice(-0)` is the whole
  string (`KeepsTailIffBounded`).
- **A successful token add** can lose a usable legacy token: when the new label is `default`, or when an array entry
  labelled `default` that is too short to count stands beside it (`AddExtendsTable`, `LegacyTokensLost`).
- **Rebuilding an object** in the timestamp rewriter drops a `__proto__` key (`PathsKept`, `KeysKeptIffNoProto`,
  `ProtoIsLost`, `StampLosesProto`).
- **A failed POST of a remote server** leaves its entry behind exactly when the daemon stops while the tunnel is awaited,
  or the rollback cannot be written (`StoredIffLeftBehind`, `FailedPostsMayBeKept`).
- **A process can stop after a rename and before it reports it**: the file is replaced and nobody was told
  (`StoppedRenamedIff`, `RenamedButNotReported`).
- **A second `ensureDaemonRunning` call** gets the outcome for its own port if and only if no attempt is under way or the
  one under way has that port (`ServedOnOwnPortIff`, `OtherPortIsIgnored`).
- **A plan task with the slug `slice`** resolves to the file of its slice (`SameFileIff`).
- **The slug of a name** can be one the plan endpoints refuse (`NamePassesIff`, `DotsAreRefused`).
- **The token figure per provider or model** is 0 for a group in which one of the two columns is NULL throughout,
  whatever the other holds, because SQL adds the two sums before replacing NULL (`SummaryTokensExactIff`,
  `NullHidesTokens`). The program itself writes both columns in every record, and then the figure is exact
  (`SummaryTokensOfWrittenRows`): only a row written from outside can be NULL, which the schema allows.
- **The total of the ungrouped usage listing** is 0 on a page past the end (`TotalIsRightIff`).
- **The grouped usage query has no order**, so every page may be cut from another order of the groups, and reading page
  after page may repeat one group and skip another (`PagesMayRepeat`). It is sure to show each group exactly once if and
  only if all possible orders put the same groups on each page (`AlwaysReadsIffSamePages`), which for this query means
  that all groups fit on one page (`ListingIsReadIffOnePage`). A database that keeps to one order shows them
  consecutively (`PagesAreConsecutive`).

## Model

| member | source | states |
|---|---|---|
| RateLimit.RateLimiter.IsLimited | src/lib/rate-limit.ts:38-47 | Answers by the key's live window and deletes an expired one, nothing else. |
| RateLimit.RateLimiter.RecordFailure | src/lib/rate-limit.ts:50-58 | Counts into a live window in place; otherwise evicts if full and opens a new window, in the place of an expired entry that is still there, or else at the end of the map. |
| RateLimit.RateLimiter.EvictIfFull | src/lib/rate-limit.ts:66-77 | The loop that deletes while iterating is the recursive sweep: it stops as soon as there is room, and drops the oldest key if it ends without room. |
| RateLimit.EvictDropsOne | src/lib/rate-limit.ts:66-77 | A full map loses exactly one key; a live one only if no entry is expired, and then the first of the map. |
| RateLimit.StepEntry | src/lib/rate-limit.ts:38-77 | What any call makes of any entry: a failure of the key counts into its window up to and including the moment it resets at, or opens a new one; a check of the key drops it after that moment; any other failure keeps or drops it. |
| RateLimit.ReplayBounded | src/lib/rate-limit.ts:60-77 | After every history the keys are distinct and at most `maxKeys`. |
| RateLimit.EntryCountsItsWindow | src/lib/rate-limit.ts:38-77 | For every history a stored count is the number of failures of that key since the call that opened its window, all inside the window. |
| RateLimit.LiveWindowDroppedOnlyWhenFull | src/lib/rate-limit.ts:60-77 | A live window disappears only when a new key fails while `maxKeys` live windows are held, and it is the first of the map. |
| RateLimitOrder.EvictDropsVictim | src/lib/rate-limit.ts:66-77 | A full map gives up its first expired entry, or the first entry if none is expired; the others keep their order. |
| RateLimitOrder.HeldSinceSome | src/lib/rate-limit.ts:50-77 | After every history each key in the map has been there without a break since some call. |
| RateLimitOrder.KeysInOrder | src/lib/rate-limit.ts:50-77 | After every history the keys stand in the order of those calls. |
| RateLimitOrder.DroppedIsHeldLongest | src/lib/rate-limit.ts:60-77 | A live window that is dropped is that of the key held longest. |
| RateLimitExact.AgreesIffFits | src/lib/rate-limit.ts:38-77 | The map holds exactly the live windows of a limiter that never forgets anything, after every call, if and only if no failing call leaves more than `maxKeys` keys with a live window. |
| RateLimitExact.LimitedIsWindowedCount | src/lib/rate-limit.ts:38-58 | Then `isLimited` is true exactly when plain windowed counting over the whole history reaches `maxAttempts`. |
| RateLimitExact.FewKeysFit | src/lib/rate-limit.ts:60-77 | It is so in every history in which at most `maxKeys` keys ever fail. |
| RemoteAuthGate.RemoteAuth | src/middleware/remote-auth.ts:59-88 | Order of the checks, the reply, and exactly which limiter calls a request makes. |
| RemoteAuthGate.AdmittedIff | src/middleware/remote-auth.ts:77-88 | A gated request within its limit is let through under a label if and only if its header carries, as a non-empty bearer token, one of the configured tokens, and the label is that of the first of them; otherwise it gets 401. |
| RemoteAuthGate.UngatedIff | src/middleware/remote-auth.ts:52-72 | A request passes without a label, and without touching the limiter, exactly when no token is configured, it is a health check or CORS preflight, or it comes from this machine. |
| RemoteAuthGate.EntryCountsRefusals | src/middleware/remote-auth.ts:73-84 | In every run a stored entry counts exactly the 401 answers its address got since its window opened. |
| RemoteAuthGate.CountNeverExceedsLimit | src/middleware/remote-auth.ts:73-84 | In every run no stored count exceeds `maxAttempts`. |
| RemoteAuthGate.RefusalLeavesWindows | src/middleware/remote-auth.ts:73-75 | A 429 changes nothing, so refused requests never extend a window. |
| RemoteAuthGate.RefusalIsBacked | src/middleware/remote-auth.ts:73-84 | Every 429 is backed by exactly `maxAttempts` 401 answers to that address, the first at most `windowMs` before it. |
| RemoteAuthGate.LockoutEnds | src/middleware/remote-auth.ts:73-84 | Once all 401 answers to an address are older than `windowMs` it is not refused any more. |
| RemoteAuthGate.RefusedExactlyByCounting | src/middleware/remote-auth.ts:59-88 | As long as no 401 answer leaves more than `maxKeys` addresses with a live window, a gated request gets 429 exactly when windowed counting over the run says so. |
| TokenStore.TokenFile.GetConfiguredTokens | src/config/remote-auth.ts:20-58 | The loop keeps the first usable entry of each label in order, then the legacy token as `default` if that label is free. |
| TokenStore.TokenFile.FindMatchingToken | src/config/remote-auth.ts:69-85 | The scan without early exit answers by the first equal token. |
| TokenStore.MatchIsFirstEqual | src/config/remote-auth.ts:69-85 | No match exactly when no token is equal; otherwise the label of the first one that is. |
| TokenStore.ConfiguredLookup | src/config/remote-auth.ts:20-58 | The configured list is a table from labels to tokens, with the legacy token behind the array. |
| TokenStore.ConfiguredIff | src/config/remote-auth.ts:20-58 | A label stands for a token if and only if the first element with that non-empty label and a token of 32 or more characters has this one, or, for `default` without any such element, if it is the legacy token and long enough. |
| TokenStore.KeptOrdered | src/config/remote-auth.ts:24-43 | The list has its entries in the order of the elements they come from. |
| TokenStore.TokenFile.AddRemoteAccessToken | src/config/remote-auth.ts:87-115 | Which error is thrown in which order, and the rewritten rc of a success; an error changes nothing. |
| TokenStore.AddExtendsTable | src/config/remote-auth.ts:87-115 | A successful add yields the old table plus the new pair if and only if no usable legacy token is lost. |
| TokenStore.AddLookup | src/config/remote-auth.ts:87-115 | What every label means after an add, the losing cases included. |
| TokenStore.AddedList | src/config/remote-auth.ts:103-114 | The whole configured list after an add, in order: a usable legacy token that is moved comes first, the new one last. |
| TokenStore.AddedLabels | src/config/remote-auth.ts:94-114 | Which labels are taken from then on, and that the legacy field is empty. |
| TokenStore.LegacyTokensLost | src/config/remote-auth.ts:106-111 | Both ways a usable legacy token is lost, on concrete files. |
| TokenStore.TokenFile.RemoveRemoteAccessToken | src/config/remote-auth.ts:117-136 | The rewritten rc, and that true is returned exactly when something changed. |
| TokenStore.RemoveDropsOnlyLabel | src/config/remote-auth.ts:117-136 | After a remove the configured list is the old one without that label, order included. |
| TokenStore.RemovedElements | src/config/remote-auth.ts:121-127 | A remove takes away exactly the stored elements of that label, unusable ones included. |
| Missions.StepKeepsInv | src/routes/missions.ts:731-846 | Every step, crash included, keeps row ids unique, rows well formed, and each decision in the hands of one handler. |
| Missions.StepLog | src/routes/missions.ts:702-724 | The log only grows: rows keep place, id, mission, kind, time and proposal; only an insert adds one. |
| Missions.DismissalIsStored | src/routes/missions.ts:882-894 | A dismissal step appends its row with the reason given and changes nothing else in the log. |
| Missions.EntitiesFollowApprovals | src/routes/missions.ts:765-834 | In every run an entity exists only if its approval row does, a row yields at most one entity, a finalised row names an entity that was created, an approval without one is found by the boot scan, and a finalised one is not. |
| MissionDecisions.StepStamps | src/routes/missions.ts:710-724 | A step adds a decision row to a proposal exactly when it writes one for it, with its own id and time. |
| MissionDecisions.DecisionsAtMostOverlap | src/routes/missions.ts:731-801 | A proposal gets at most as many rows of a kind as its requests of that kind ever overlapped; for approve and for dismiss. |
| MissionDecisions.EntitiesAtMostApprovals | src/routes/missions.ts:795-810 | It gets at most as many entities as approval rows. |
| MissionDecisions.DecidedAtMostOnce | src/routes/missions.ts:852-894 | Requests of a kind handled one after another give at most one row of that kind, whatever crashes. |
| MissionDecisions.ApprovedAtMostOnce | src/routes/missions.ts:731-846 | Approve requests handled one after another give at most one approval row and one entity, whatever crashes. |
| MissionDecisions.BoundIsReached | src/routes/missions.ts:742-801 | For every k there is a run whose k overlapping requests write k rows. |
| MissionDecisions.AtMostOnceIffSerial | src/routes/missions.ts:742-801 | An overlap bound k guarantees at most one row of a kind if and only if k is at most 1. |
| MissionOrigins.ApprovalsMatchProposals | src/routes/missions.ts:578-605 | In every run an approval row goes back to a stored valid proposal of its mission, and a finalised one names an entity that fits it. |
| MissionEntities.MaterialiseBuilds | src/routes/missions.ts:647-701 | The step that creates an entity creates the one the proposal asks for: with the slug the plan store gave it, a slice under the named milestone, a task under the named slice and the milestone found for it; none if there is nothing to create. |
| MissionEntities.FinalRowsNameTheirEntity | src/routes/missions.ts:765-834 | In every run the entity of a finalised row was created for that row in one of its steps, from the stored proposal and the plan store's answers in that very step. |
| MissionViews.MissionDb.ListProposals | src/routes/missions.ts:405-479 | The list built from the two sets is the selection by status over the event log. |
| MissionViews.ProposalRowsExactly | src/routes/missions.ts:426-432 | The proposal query gives every proposal row of the mission, unreadable ones included, and no other. |
| MissionViews.ListedExactly | src/routes/missions.ts:448-461 | Which proposals are in which list, both ways. |
| MissionViews.ListsKeepOrder | src/routes/missions.ts:456-461 | A list keeps the order of the rows. |
| MissionViews.MissionDb.FindExistingDecisionId | src/routes/missions.ts:550-567 | None exactly when there is no such decision; otherwise a matching row of least time. |
| MissionViews.MissionDb.Approve | src/routes/missions.ts:731-846 | One undisturbed approve call: when each reply is given, with exactly the rows and entity it leaves, as a run of the step model. |
| MissionViews.MissionDb.Dismiss | src/routes/missions.ts:852-903 | One undisturbed dismiss call, likewise. |
| MissionViews.RetryChangesNothing | src/routes/missions.ts:740-752 | A retry after a call that got as far as its row changes nothing and is answered with the same decision. |
| MissionViews.NeverPendingAgain | src/routes/missions.ts:456-461 | Under any interleaving a proposal that has left the pending list never returns. |
| MissionViews.PendingIffUndecided | src/routes/missions.ts:456-461 | A proposal is pending exactly when no approve or dismiss step of the run has written a row for it. |
| MissionViews.ListsPartition | src/routes/missions.ts:448-461 | Pending and dismissed lists are disjoint; with the approved they cover all proposals. |
| MissionViews.NeverBothIffNeverCrosses | src/routes/missions.ts:731-894 | In every run a proposal is never both dismissed and approved if and only if no decision is written while it has one of the other kind. |
| MissionAnswers.OneAnswerIff | src/routes/missions.ts:555-564 | The lookup has one possible answer if and only if no other row of the kind has the earliest time. |
| MissionAnswers.AnswerStaysIff | src/routes/missions.ts:543-567 | An answer stays one for the rest of the run if and only if no later row is stamped before it. |
| MissionAnswers.OnlyAnswerStaysIff | src/routes/missions.ts:543-567 | Every later retry gets the same id if and only if no later row is stamped at or before the first. |
| MissionAnswers.SerialRetriesAgree | src/routes/missions.ts:543-567 | With requests of the kind handled one after another the answer never changes, whatever the clock does. |
| MissionAnswers.TiesHappen | src/routes/missions.ts:562-563 | A run with two answers: overlapping requests of one second. |
| MissionAnswers.AnswersChange | src/routes/missions.ts:562-563 | A run in which a clock that steps back replaces the answer. |
| MissionViews.DismissedMayStillBeApproved | src/routes/missions.ts:731-752 | A run, with all requests one after another, after which a proposal is both dismissed and approved. |
| RemoteServers.RemoteServerFile.Add | src/config/remote-servers.ts:78-99 | Succeeds exactly for a new id and a write that works, and then the entry is appended to the file, and read back if it has a host; otherwise nothing changes. |
| RemoteServers.RemoteServerFile.UpdateEntry | src/config/remote-servers.ts:108-147 | Null exactly for an unknown id; otherwise the entry with every field of the update, field by field, which is then what the file holds; a failing write changes nothing. |
| RemoteServers.RemoteServerFile.Delete | src/config/remote-servers.ts:149-155 | Leaves exactly the entries of other ids; false exactly when there was none. |
| RemoteServers.ReadBack | src/config/remote-servers.ts:42-46 | What is saved is what is read back, for entries with a host. |
| RemoteServers.UpdateFirstSpec | src/config/remote-servers.ts:108-147 | An update leaves every other id alone and gives the found entry its merged value. |
| RemoteServers.UpdateCarries | src/config/remote-servers.ts:108-147 | After an update the entry has each given field, token and label kept, cleared or replaced, a host only if it is not empty, and everything else as before. |
| RemoteServers.ReadsEachElement | src/config/remote-servers.ts:26-40 | Reading takes each stored element by itself, in order: an entry with a host is a server, anything else nothing. |
| RemoteServers.OthersEach | src/config/remote-servers.ts:149-155 | Deleting drops every entry of the id and keeps the others in order. |
| RemoteServerSaga.StepKeepsInv | src/routes/meta.ts:521-878 | Every handler step keeps ids unique and the stored ids balanced against what was created, deleted and kept. |
| RemoteServerSaga.QuiescentIds | src/routes/meta.ts:521-701 | In every interleaving, once no handler is left, the stored ids are the initial ones plus the 201 POSTs and the entries a crash or failed rollback kept, minus the 204 DELETEs. |
| RemoteServerLeftovers.StoredIffLeftBehind | src/routes/meta.ts:649-688 | Once no handler is left, the entry of a POST that was not answered 201 is stored if and only if a crash came while its tunnel was awaited or its rollback could not be written, and no DELETE of it was answered 204. |
| RemoteServerLeftovers.NothingKept | src/routes/meta.ts:649-688 | Without a crash and with rollbacks that are written nothing is kept, so each failed POST leaves nothing behind. |
| RemoteServerLeftovers.FailedPostsMayBeKept | src/routes/meta.ts:639-688 | A run for each of the two ways. |
| RemoteServerSaga.NeverResurrected | src/routes/meta.ts:729-846 | Once a stored server is gone no step, a PATCH in flight included, stores its id again. |
| RemoteServerSaga.StepLeavesOthers | src/routes/meta.ts:521-878 | A step changes no entry of another server and not their order. |
| RemoteServerSaga.PatchKeepsCredentials | src/routes/meta.ts:766-797 | A PATCH never changes id, token or label, and never empties the host. |
| RemoteServerPatches.PatchBegins | src/routes/meta.ts:744-776 | A PATCH with an ssh field other than stored goes on to stop the tunnel; any other is written at once, as asked. |
| RemoteServerPatches.PatchWrites | src/routes/meta.ts:793-803 | Once the tunnel is stopped the entry is as the PATCH asks, field by field, if it is still there and the disk writes. |
| RemoteServerPatches.PatchIsCarriedOut | src/routes/meta.ts:730-803 | In every run, whatever other handlers do in between, such a PATCH is written as it was asked for. |
| RemoteServerPatches.DeleteWrites | src/routes/meta.ts:860-885 | A DELETE is answered 204, with no entry of its id left, unless there is one and the disk fails. |
| RemoteServerTokens.SavedAsGiven | src/routes/meta.ts:591-637 | A new server is stored exactly when the bootstrap output is a token and the write works, and then as the request and the bootstrap gave it, at the end of the list. |
| RemoteServerTokens.CreatedServersAreCredentialed | src/routes/meta.ts:603-637 | In every run each stored server that was not there at the start has a host, a label and a well-formed token. |
| TagsCache.IncidentRoutes.ReadTagsCache | src/routes/incidents.ts:67-75 | A hit until the entry expires; an expired entry is dropped. |
| TagsCache.IncidentRoutes.WriteTagsCache | src/routes/incidents.ts:77-86 | Stores with a fresh expiry and drops the oldest entry above the cap. |
| TagsCache.IncidentRoutes.InvalidateTagsCache | src/routes/incidents.ts:88-93 | Clears the all-scopes bucket and the project's, no other. |
| TagsCache.IncidentRoutes.GetTags | src/routes/incidents.ts:155-195 | A hit answers the cached list, a miss the table scan, which it stores. |
| TagsCache.IncidentRoutes.Post | src/routes/incidents.ts:237-263 | The table gains the one row, which gives every list it belongs to exactly the non-blank tags of the body; the cache is cleared when the body has tags. |
| TagsCache.IncidentRoutes.PutIncident | src/routes/incidents.ts:266-304 | Only the patched row changes; it belongs to the project of the body, if one is set, and carries the tags of the body, or those it had; which buckets are cleared, also when the row is gone. |
| TagsCache.IncidentRoutes.Delete | src/routes/incidents.ts:307-315 | The row is removed and its bucket cleared; nothing happens without a row. |
| TagsCache.TagsOfIsScan | src/routes/incidents.ts:170-189 | The set the loop builds is the set of trimmed non-empty tags of the rows in scope. |
| TagsCache.ScanIsCarried | src/routes/incidents.ts:170-194 | A tag is in a list exactly when it is not empty and some row in scope holds it, up to blanks, as a text of its array. |
| Text.TrimCuts | src/routes/incidents.ts:185-187 | Trimming takes off the white space at both ends, all of it and nothing else. |
| TagsCache.RunBounded | src/routes/incidents.ts:77-86 | In every run the cache holds one entry per key and at most 256. |
| TagsCache.HitIsRecent | src/routes/incidents.ts:60-75 | In any run, direct writes to the table included, a hit is the table's tag list at some moment of the last 30 seconds. |
| TagsCache.SafeRunIsCoherent | src/routes/incidents.ts:237-315 | With writes only through the handlers and only safe PUTs, every cached list is the scan of the table now. |
| TagsCache.HitIsCurrent | src/routes/incidents.ts:155-165 | In such a run every hit equals the list recomputed from the table now. |
| TagsCache.PostedTagsAreListed | src/routes/incidents.ts:237-258 | Right after a POST a GET answers the list of before and, if it covers the new row's project, exactly the non-blank tags of the body as well. |
| TagsCache.PutTagsAreListed | src/routes/incidents.ts:266-304 | Right after a PUT a GET answers what the other rows give and, if it covers the project the row now has, the tags of the body or else those it had. |
| TagsCache.PutIsExactIffSafe | src/routes/incidents.ts:266-304 | A PUT keeps every exact cache exact if and only if it keeps the project, the row has no tags to carry, or it sets tags on a row without project. |
| TagsCache.UnsafePutIsSeen | src/routes/incidents.ts:155-304 | For every other PUT there is a run of one GET and that PUT after which the cache answers with a list that is not the table's. |
| TagsCacheOrder.StoredListIsServed | src/routes/incidents.ts:67-84 | What a GET stores is served for 30 seconds and no longer. |
| TagsCacheOrder.ListsInOrder | src/routes/incidents.ts:77-85 | After every run the cached lists stand in the order in which they were stored. |
| TagsCacheOrder.DroppedIsHeldLongest | src/routes/incidents.ts:77-85 | A GET takes away another list only when there are 256 of them, and then the one stored longest ago. |
| AtomicFile.TargetsHoldCompleteWrites | src/lib/fs-safe.ts:46-100 | At every moment of every run the files that are not temporary are what the renamed writers' complete writes leave, in order; each is renamed at most once, and is if it reported success. |
| AtomicFile.ReaderSeesWholeContent | src/lib/fs-safe.ts:46-100 | A target always holds its initial content or one writer's complete content, that of the last rename. |
| AtomicFile.ReportedIffRenamed | src/lib/fs-safe.ts:58-69 | A writer that has finished reported success if and only if its rename took effect. |
| AtomicFile.StoppedRenamedIff | src/lib/fs-safe.ts:58-69 | In every run a writer that was stopped has been renamed if and only if a crash fell between its rename and its report. |
| AtomicFile.RenamedButNotReported | src/lib/fs-safe.ts:91 | There is such a run for every file and content. |
| AtomicFile.FinishedLeavesNoTemp | src/lib/fs-safe.ts:59-69 | When all writers have finished without a crash and with cleanup working, no temporary file remains. |
| AtomicFile.Directory.WriteFileAtomic | src/lib/fs-safe.ts:46-70 | One call: it succeeds exactly without a fault, and then the path holds the content and the temporary file is gone; with any fault no file but the temporary one changes, and that is gone if it can be removed. |
| AtomicFile.CallIsRun | src/lib/fs-safe.ts:46-70 | One call is a run of the concurrent model, so the run theorems hold of it. |
| LogTail.PrintTail | src/cli-commands/logs.ts:25-51 | For every text, n and chunk size the backward chunked read prints what splitting the whole file and keeping the last n + 1 pieces gives. |
| LogTail.TailOfTerminated | src/cli-commands/logs.ts:47-50 | For a file ending in a newline that is exactly its last n lines. |
| LogTail.TailIsLastLines | src/cli-commands/logs.ts:47-50 | The output is the last n lines if and only if the file ends in a newline, or is not empty and has at most n of them; otherwise it is one line more, and one empty line for an empty file. |
| LogTail.Follower.Poll | src/cli-commands/logs.ts:57-76 | What one poll prints and where the offset goes for a grown, shrunk, equal or missing file. |
| LogTail.FollowsAppends | src/cli-commands/logs.ts:53-77 | While the file only grows every appended character is printed once and in order. |
| LogTail.FollowsTruncation | src/cli-commands/logs.ts:57-76 | After the file was cut below the offset everything in it is printed from its start. |
| BoundedString.BoundedStringAccumulator.Append | src/lib/bounded-string.ts:46-59 | One more chunk is fed; the buffer stays the fold of everything fed. |
| BoundedString.BoundedStringAccumulator.ToString | src/lib/bounded-string.ts:63-70 | The fold of `appendBounded` over everything appended since the last clear; for a positive limit its last `maxBytes` characters. |
| BoundedString.BoundedStringAccumulator.Length | src/lib/bounded-string.ts:73-75 | Agrees with that text. |
| BoundedString.BoundedStringAccumulator.Truncated | src/lib/bounded-string.ts:79-81 | True exactly when more than the limit was appended in total. |
| BoundedString.BoundedStringAccumulator.Clear | src/lib/bounded-string.ts:85-89 | Back to nothing fed. |
| BoundedString.FoldKeepsSlice | src/lib/bounded-string.ts:99-106 | Cutting after each chunk is cutting once at the end. |
| BoundedString.KeepsTailIffBounded | src/lib/bounded-string.ts:44-59 | The result is the last `maxBytes` characters if and only if the limit is positive or nothing was appended. |
| Timestamps.NaiveHasNoZone | src/lib/normalize-timestamps.ts:47-54 | The zone-marker pattern never matches a naive timestamp. |
| Timestamps.RewritesExactlyNaive | src/lib/normalize-timestamps.ts:70-77 | Exactly the naive timestamps change, and the result is stable. |
| Timestamps.SameMoment | src/lib/normalize-timestamps.ts:70-77 | A rewritten timestamp has the same date, time of day and fraction, now marked as UTC. |
| Timestamps.NormalizeTimestampsDeep | src/lib/normalize-timestamps.ts:95-122 | The recursion with its loops and flags computes the deep rewriting, and returns the same value exactly when nothing changed. |
| Timestamps.SameIffNoNaiveLeaf | src/lib/normalize-timestamps.ts:95-122 | The very same value comes back exactly when no text in the tree is a naive timestamp. |
| Timestamps.NormIsIdempotent | src/lib/normalize-timestamps.ts:66-68 | Rewriting twice is rewriting once, for every JSON tree. |
| Timestamps.PathsKept | src/lib/normalize-timestamps.ts:79-122 | Every path of indices and keys leads to the rewriting of what it led to if and only if no object in the tree that has to be rebuilt has a `__proto__` key. |
| Timestamps.KeptLeaves | src/lib/normalize-timestamps.ts:95-122 | At the end of such a path other leaves and list lengths are as before. |
| Timestamps.ProtoIsLost | src/lib/normalize-timestamps.ts:110-120 | An object that loses its key, for every naive timestamp beside it. |
| Timestamps.StampLosesProto | src/lib/normalize-timestamps.ts:110-120 | One such object, with what is left of it. |
| Timestamps.KeysKeptIffNoProto | src/lib/normalize-timestamps.ts:110-120 | An object keeps its keys in order if and only if it is unchanged or has no `__proto__` key. |
| Redaction.NoRunSurvives | src/cli-commands/remote-bootstrap.ts:122-124 | The output holds no run of 20 or more token characters. |
| Redaction.UnchangedIffNoRun | src/cli-commands/remote-bootstrap.ts:122-124 | A text comes back unchanged if and only if it holds no such run. |
| Redaction.RedactIsIdempotent | src/cli-commands/remote-bootstrap.ts:122-124 | Redacting twice is redacting once. |
| Redaction.NoTokenLeaks | src/lib/token.ts:15-17 | No minted token, 43 base64url digits, can stand anywhere in redacted output. |
| Redaction.RedactsStretchwise | src/cli-commands/remote-bootstrap.ts:122-124 | Only the over-long runs are replaced; every other stretch stays in its place. |
| DaemonStart.PollUntilHealthy | src/cli-commands/remote-bootstrap.ts:369-388 | Succeeds exactly when some round's probe is healthy, stops at the first, sends at most 50 probes and ends by the deadline plus one timer's overrun, with the remaining time as termination measure. |
| DaemonStart.RoundsAreSpaced | src/cli-commands/remote-bootstrap.ts:372-385 | A round that is in time starts at least 100 ms per earlier round after the first. |
| DaemonStart.Budgets | src/cli-commands/remote-bootstrap.ts:373-383 | A probe is given 200 ms and a sleep 100 ms, or the time that is left if that is less; a probe is always given some. |
| DaemonLock.OneAttemptAtATime | src/cli-commands/remote-bootstrap.ts:317-341 | In every run attempts never overlap, none spawns twice, and the lock is held exactly while one is under way. |
| DaemonLock.OverlappingCallsShare | src/cli-commands/remote-bootstrap.ts:328-341 | All calls that arrive during an attempt wait for that attempt, and at most one daemon is spawned. |
| DaemonLock.SharedAnswer | src/cli-commands/remote-bootstrap.ts:332-340 | Callers of one attempt get the same answer, exactly when the lock is released. |
| DaemonLock.AnswersAreFinal | src/cli-commands/remote-bootstrap.ts:328-341 | A caller's answer never changes. |
| DaemonLock.AttemptsAreCaused | src/cli-commands/remote-bootstrap.ts:343-388 | An attempt has an outcome if and only if the answer it was waiting for, or the call that opened it, gave it; it has spawned a daemon if and only if that call found no pid or its own fast probe failed. |
| DaemonLock.LockIsReleased | src/cli-commands/remote-bootstrap.ts:333-339 | Whatever the answers, failures included, an attempt that keeps getting answers releases the lock after at most four. |
| DaemonLock.ServedOnOwnPortIff | src/cli-commands/remote-bootstrap.ts:328-341 | At any later moment a caller is served on its own port if and only if no attempt was under way when it called or that one has its port. |
| DaemonLock.OtherPortIsIgnored | src/cli-commands/remote-bootstrap.ts:328-332 | A second caller with another port is attached to the attempt for the first port. |
| Slug.SlugHasShape | src/lib/slugify.ts:10-19 | Every slug is non-empty, has only `a-z0-9.-`, no `--`, and a letter or digit at both ends. |
| Slug.SlugsAreFixedPoints | src/lib/slugify.ts:10-19 | A name is its own slug if and only if it has that shape. |
| Slug.SlugifyIsIdempotent | src/lib/slugify.ts:10-19 | Slugging a slug changes nothing. |
| Slug.LettersKept | src/lib/slugify.ts:10-19 | A slug has exactly the letters and digits of the lower-cased name, in order; a name without any gives `unnamed`. |
| Slug.WordsAreDashed | src/lib/slugify.ts:11-16 | Words of letters and digits become their lower-case forms with one dash for each gap of blanks or underscores, however wide. |
| SlugChars.SlugByCharacters | src/lib/slugify.ts:10-19 | The chain of replacements does what one look at each character does: itself, a dash or nothing; then one dash of several, and no dash or dot at the ends. |
| PlanPaths.SlugMatchesPattern | src/routes/planning.ts:596-600 | Every slug matches the pattern of the plan endpoints. |
| PlanPaths.SlugOkIff | src/routes/planning.ts:592-604 | Which texts pass the gate, character by character. |
| PlanPaths.SlugPassesIffNoDots | src/routes/planning.ts:592-604 | A slug passes the gate exactly when it has no `..`. |
| SlugDots.NamePassesIff | src/lib/slugify.ts:10-19 | The slug of a name passes if and only if the name has no two dots, between letters or digits, with only dropped characters between them. |
| PlanPaths.DotlessNamePasses | src/routes/planning.ts:592-604 | The slug of a name without a dot always passes. |
| PlanPaths.DotsAreRefused | src/routes/planning.ts:601-603 | A name whose slug the gate refuses. |
| PlanPaths.PathExactlyForSafeEntities | src/routes/planning.ts:607-625 | A request gets a path exactly when it names an entity with safe slugs, and the path is the plan directory plus one segment per slug; a refusal is that of the first unsafe slug. |
| PlanPaths.SameFileIff | src/routes/planning.ts:607-625 | Two entities share a file only if they are the same, or a slice and its task called `slice`. |
| SafePath.ResolveIsIdempotent | src/lib/safe-fs-path.ts:82 | Resolving a resolved path changes nothing. |
| SafePath.OnePieceMore | src/lib/safe-fs-path.ts:82 | What one more piece of a path does: nothing for an empty one or a dot, one level up for two dots, one down otherwise. |
| SafePath.PrefixTestIsSegmentPrefix | src/lib/safe-fs-path.ts:94 | The string test for equal or inside means that the root's segments are a prefix of the path's. |
| SafePath.NoDotsLeft | src/lib/safe-fs-path.ts:101-108 | The last check can never fire. |
| SafePath.GateIsSegmentwise | src/lib/safe-fs-path.ts:71-109 | For an absolute path without NUL the verdict, with the directory it names, is decided by the first normalised segment. |
| SafePath.AcceptedIff | src/lib/safe-fs-path.ts:71-109 | Acceptance over every input, by segments, and which input gets which of the early refusals. |
| Usage.LeftJoinIsLookup | src/routes/usage.ts:124-128 | A left join on a key gives one row per row, in order. |
| Usage.JoinsKeepRecords | src/routes/usage.ts:124-128 | The four joins neither drop nor repeat a record. |
| Usage.SameGroupIff | src/routes/usage.ts:106-110 | Two rows have the same scope id exactly when they belong to the same project, the same workspace, or neither. |
| Usage.LabelFollowsId | src/routes/usage.ts:111-116 | All rows of a group have the same label, so it does not matter which row the database takes it from. |
| Usage.ProjectLabel | src/routes/usage.ts:111-113 | A record of an existing project is labelled with its name, one of a deleted project with its number. |
| Usage.WorkspaceLabel | src/routes/usage.ts:106-128 | A record without project that came from a chat of a workspace is grouped and labelled by that workspace. |
| Usage.OtherLabel | src/routes/usage.ts:106-116 | A record without project that came from no chat of a workspace is listed under the other chats. |
| Usage.WrittenInDecimal | src/routes/usage.ts:106-112 | Numbers in ids and labels are written in decimal. |
| Usage.BreakdownAddsUp | src/routes/usage.ts:69-132 | Over all groups token sums, cost sums and record counts add up to the totals of the unjoined records under the same filter. |
| Usage.AggregateOneMore | src/routes/usage.ts:69-77 | One record more adds its own input tokens, output tokens and cost, NULL as nothing, and one to the count. |
| Usage.AnswerIsUnique | src/routes/usage.ts:106-132 | Any two correct answers to the grouped query list the same groups with the same labels and sums. |
| UsagePages.AlwaysReadsIffSamePages | src/routes/usage.ts:131 | For any set of possible orders, pages enough for everything show everything exactly once, whichever order each page is cut from, if and only if all orders put the same elements on each page. |
| UsagePages.ListingIsReadIffOnePage | src/routes/usage.ts:118-131 | Reading the grouped listing page after page is sure to show every group exactly once if and only if all groups fit on one page. |
| UsagePages.PagesAreConsecutive | src/routes/usage.ts:131 | In one order of the groups the first n pages are its first n times `perPage` groups. |
| UsagePages.PagesMayRepeat | src/routes/usage.ts:118-131 | A database of two projects with two correct answers, of which two pages of one group show the same group twice. |
| UsagePages.TotalIsRightIff | src/routes/usage.ts:151-175 | The ungrouped listing returns the page of the records; its total is their number if and only if the page starts before their end, or there are none. |
| Usage.SummaryTokensExactIff | src/routes/usage.ts:29-41 | The token figure per provider or model is input plus output if and only if no column that is NULL throughout hides the other. |
| Usage.SummaryTokensOfWrittenRows | src/routes/usage.ts:29-41 | For records as the program writes them it always is. |
| Usage.NullHidesTokens | src/routes/usage.ts:29-41 | A group with a NULL column reports 0, whatever its tokens. |

## Left out

- HTTP, request validation, Drizzle, WebSocket broadcasts and response shapes: a handler is its sequence of state steps.
- The order of rows with equal sort keys: query answers are taken as given, in any order the database may choose.
- Usage.BreakdownAddsUp: sums are exact numbers, because the rounding of floating-point cost sums is not the point; the filter is any condition on a record, so `buildFilters` itself is not modelled.
- UsagePages.PagesAreConsecutive: supposes one order for all pages, which the query does not ask for; without it the other theorems on pages say what holds. The table does not change between pages.
- Usage: the rest of the summary endpoint, the other groupings and the budget routes, which would only add easier members.
- TagsCache: the alphabetical order of the tag list; a list is the set of its tags.
- LogTail.PrintTail: text has one character per byte, because decoding UTF-8 across a chunk boundary is a property of the runtime.
- LogTail.FollowsAppends: what is lost when the file is replaced by a longer one, which cannot be seen from sizes.
- RateLimit: the two clock readings of one call are taken as one, and `reset` and `size` are for tests.
- TokenStore: timing-safe comparison is equality; the warnings and the rc file on disk are not modelled.
- RemoteServerSaga: ssh, tunnels and the disk answer anything; error codes of the replies and the seam for crash tests are not modelled, nor the removal of pre-SSH entries.
- RemoteServerSaga: edits of the rc file by other programs while a handler waits.
- Missions.StepLog: deleting a project, which deletes the rows of its missions with it.
- Missions: the plan store answers anything; slugs and files of the entities are its own affair, and the operator's repair of a pending approval is not modelled.
- MissionViews.MissionDb.Approve: one call with nobody else about; overlapping calls are runs of the step model.
- AtomicFile: file modes, directory creation and what a kernel does to unsynced data after power loss.
- AtomicFile.Directory.WriteFileAtomic: the synchronous form; the asynchronous one has the same steps and is covered by the run theorems.
- Timestamps: values that are no JSON, such as NaN, functions or cyclic objects.
- DaemonStart.PollUntilHealthy: a probe and a sleep may overrun their budget by one common bound; with timers that overrun without bound nothing ends. A probe answers yes or no; one that rejects ends the loop at once, which `DaemonLock` has as an action.
- DaemonLock: mutual exclusion between processes through the pid file, which its separate open, write and unlink steps do not give in all interleavings.
- SafePath: the character-level code of the runtime's `resolve`; the model resolves the pieces between separators. Symbolic links are not followed, as in the source.
- Slug: a lower-casing table for the whole of Unicode; only two characters outside ASCII turn into something a slug keeps.
- PlanPaths: the plan directory is any absolute path; reading and writing the files.
- The task and chat executors, the scheduler, git operations, the audit log, the CLI wrappers and the user interface.
