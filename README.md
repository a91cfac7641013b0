# ipfs-sqlite-browser: a Dafny model of the restore core

`IPFSSQLiteDB` keeps a browser-side copy of an SQLite database that is
published on IPFS as fixed-size pages. A manifest lists one link per page. The
object resolves a snapshot reference: `/ipfs/<cid>` names a snapshot directly,
while `/ipns/<key>` is resolved through the naming service. Every resolution
sends a request, and all lookups of one name within a 15-second window send
the same `cacheBust` value. It then loads the snapshot's version index and
manifest, and restores the pages into two local stores:

- a page store, mapping each page number to its bytes, plus a file-size record
  under the key -1;
- a current-pages store, mapping each page number to the fingerprint last
  applied to it.

A page whose stored fingerprint equals its link's fingerprint is skipped, so
only changed pages are downloaded. The `watch` loop polls a name and runs a
restore whenever the resolved path changes. It adopts the new path only when
both the refresh and the restore succeed.

The project has six modules:

- `Wrappers`: `Option` and `Result`.
- `References`:
  - `split("/")` as `Split`, with its inverse `Join`;
  - the segment lookup, which yields `undefined` past the end;
  - `Path.slice(6)`;
  - the cache bucket;
  - the configuration id a reference names.
- `Configuration`: the two-stage load of version index and manifest.
- `Pages`:
  - link fingerprints;
  - the specification of a restore: what it fetches, schedules and marks, the
    order of its actions, and what the stores hold afterwards;
  - the lemmas about that specification.
- `Watching`: one `watch` tick as a transition of the running path, and runs of
  several ticks.
- `Database`: the class `IpfsSqliteDb`. Its fields are the object's private
  state, and the two stores are `map` fields. Its methods are the imperative
  code (refresh, the restore loop, `Promise.all`, one watch tick), each proved
  against the `Pages`, `Configuration` and `Watching` functions.

Network calls are function parameters:

- `resolve`: name and cache bucket to the resolved path;
- `getIndex` and `getManifest`: the two `dag/get` requests;
- `fetch`: page fingerprint to bytes.

`None` stands for a failed or timed-out request. The clock is the parameter
`nowMs`. All of these are deterministic. The second download of page 0 therefore
returns the same bytes as the first.

The scheduled page saves are awaited after the loop, in an arbitrary order
(`AwaitAll` picks each next task with `:|`). This covers every schedule of the
limiter. Each task writes only its own page number, and the only other page
write of a restore, the inline page 0, happens before any task starts.

A non-zero page is marked current when its save is scheduled
(src/index.js:233), not once its bytes are stored. If that download fails, the
page keeps its old bytes, stays marked current, and is never fetched again for
the same manifest (`Pages.FailedPageStaysStale`).

The class methods are proved against these definitions, which stand for the
loop, the stores it leaves and the watch run:

- `Pages.Actions`: the loop's observable steps in order, page by page.
- `Pages.PendingTasks`: the saves pushed onto `pageRestoresInProgress`.
- `Pages.RestoreOutcomeOf`: whether `restore` resolves or rejects, and why.
- `Pages.RestoredData`: the page store after every save has settled.
- `Pages.Converge`: the current-pages store after the loop.
- `Watching.Watch`: a run of ticks in which every refresh and restore succeeds.

## Model

| member | source | states |
|---|---|---|
| References.Split | src/index.js:39 | `split("/")` yields at least one piece, and no piece contains the separator |
| References.JoinSplit | src/index.js:39 | joining the pieces of a split with `/` gives back the original text |
| References.SplitJoin | src/index.js:39 | splitting the join of separator-free pieces gives back those pieces |
| References.Segment | src/index.js:39 | the i-th piece contains no separator, and is `undefined` exactly when the text has at most i pieces |
| References.SegmentOfJoin | src/index.js:47 | the i-th segment of a joined reference is its i-th piece, or `undefined` past the end |
| References.DropIpfsPrefix | src/index.js:44 | `slice(6)` keeps the text after the sixth character: the length is the old length minus six (at least 0), and the result is a suffix |
| References.DropIpfsPrefixOfPath | src/index.js:44 | a resolved path `/ipfs/<cid>` yields `<cid>` |
| References.CacheBucket | src/index.js:144 | the cache-bust value `b` is the 15-second window holding the clock: `b*15000 <= now < (b+1)*15000` |
| References.WindowBucket | src/index.js:144 | every instant of the k-th 15-second window gives cache-bust value k |
| References.BucketMonotone | src/index.js:144 | the cache-bust value never decreases as the clock advances |
| References.ResolvePath | src/index.js:143-154 | `#resolveIPNS(ref).Path` is the naming service's answer for the reference's third segment (`undefined` when it has none) with cache-bust value k, for the 15-second window k that holds the clock |
| References.ResolveWithinWindow | src/index.js:143-154 | two lookups of one name within the same 15-second window ask the naming service the same question |
| References.ConfigurationId | src/index.js:39-50 | the result is an invalid-protocol error exactly when the second segment is neither `ipfs` nor `ipns`; it is an unresolved error exactly when the protocol is `ipns` and the name lookup fails |
| References.ImmutableReference | src/index.js:46-47 | `/ipfs/<cid>`, with any trailing segments, names `<cid>` |
| References.MutableReference | src/index.js:42-45 | `/ipns/<key>` names the resolved path of `<key>` in the current bucket, minus `/ipfs/`, or fails when the lookup fails |
| References.ReferenceWithoutSeparator | src/index.js:39-49 | a reference without `/` throws "Invalid Protocol: undefined" |
| Configuration.LoadConfiguration | src/index.js:36-79 | a reference error escapes unchanged; otherwise the result is "unavailable" exactly when the index fetch or the manifest fetch fails; on success the index is the one at the reference's id and the links are the ones from the manifest it points to |
| Configuration.LoadImmutable | src/index.js:46-73 | an `/ipfs/<cid>` reference never throws, and loads the index stored under `<cid>` |
| Pages.Fingerprint | src/index.js:194 | a present, non-empty `Cid["/"]` is the fingerprint; a missing or empty one falls back to `Hash` |
| Pages.Converge | src/index.js:233 | after a restore, every manifest page holds its link's fingerprint, and keys outside the manifest are unchanged |
| Pages.ConvergedUpToStep | src/index.js:196-233 | the stored fingerprint of page n read during the loop is the one from before the restore; marking page n extends the converged prefix |
| Pages.RestoreEffect | src/index.js:186-239 | a restore completes exactly when the stores are open (or there are no links) and every stale page downloads; when it rejects for missing stores or an unavailable page 0, both stores are untouched; when it completes, or rejects because a scheduled download failed, every manifest page is marked current (no rollback) and the page store is `RestoredData` |
| Pages.CompletedIffAllSaved | src/index.js:238 | past page 0, a restore completes exactly when every scheduled save downloads |
| Pages.PendingTasksAre | src/index.js:223-231 | the scheduled saves are exactly the stale non-zero pages, each with its own link |
| Pages.PendingTasksOwnKeys | src/index.js:224-228 | two distinct scheduled saves write distinct page numbers |
| Pages.Settled | src/index.js:119-129 | a finished save stores its download at its own page number exactly when the download succeeded, and writes no other key |
| Pages.SettledOne | src/index.js:119-129 | finishing one more save adds its download, if any, at its page number, which no earlier save wrote |
| Pages.ActionsOnlyStalePages | src/index.js:196-202 | skip rule: the loop fetches, schedules, writes and marks only stale pages; the only key outside the manifest it writes is -1, holding page 0's length times the page count |
| Pages.ActionsCoverStalePages | src/index.js:204-233 | delta: every stale page is fetched (page 0, with its size record) or scheduled (any other page), and marked current |
| Pages.StalePageActions | src/index.js:223-233 | a stale non-zero page is scheduled and then marked; page 0 is never scheduled |
| Pages.FileSizeFirst | src/index.js:204-231 | the size record is written before the save of page 0 and before any scheduled save |
| Pages.FileSizeAtOne | src/index.js:205-220 | the size record can only be the second action, right after the first download of page 0 |
| Pages.MarkedWhenScheduled | src/index.js:226-233 | a non-zero page is marked current immediately after its save is scheduled, with its link's fingerprint |
| Pages.NoActionsWhenCurrent | src/index.js:199-202 | when every page is current, the loop does nothing and schedules nothing |
| Pages.ConvergedIsCurrent | src/index.js:193-235 | after a restore every manifest page is current, and converging again changes nothing |
| Pages.NothingStaleAfterConverge | src/index.js:193-238 | once every page is current, nothing is left to download, and a restore cannot fail |
| Pages.RestoreTwiceIsNoOp | src/index.js:186-239 | idempotence: a second restore with the same links fetches, schedules and writes nothing, and completes |
| Pages.DeltaOnly | src/index.js:193-233 | after converging on one manifest, a manifest that differs at page k alone makes exactly page k stale, and only page k is fetched or scheduled |
| Pages.RestoredDataAt | src/index.js:204-238 | key by key, the page store after a restore holds the size record at -1 when page 0 was stale, the downloaded bytes at every stale page that downloaded, and the old entry everywhere else |
| Pages.SettledPendingAt | src/index.js:223-238 | a page number is written by the scheduled saves exactly when it is a stale non-zero page whose download succeeds |
| Pages.SettleRestore | src/index.js:204-238 | the page store after the inline page-0 write plus all scheduled saves is the restored page store |
| Pages.FailedPageStaysStale | src/index.js:223-238 | a non-zero page whose download fails makes the restore reject, keeps its old bytes, is marked current, and is not fetched by a later restore of the same links |
| Pages.ThreePageScenario | src/index.js:186-239 | restoring f0, f1, f2 from scratch fetches page 0 inline and schedules pages 1 and 2; restoring then f0, f1, f3 schedules page 2 alone |
| Watching.Tick | src/index.js:158-182 | a tick adopts the resolved path exactly when resolution, refresh and restore succeed for a new path; it is a no-op when the path equals the running one; any failure leaves the running path unchanged |
| Watching.FailedRestoreIsRetried | src/index.js:161-177 | after a failed restore the running path is unchanged, so the next tick on the same path restores again |
| Watching.WatchStep | src/index.js:157-183 | the last of a run of successful ticks adopts its path, and starts a restore when the path changed |
| Watching.ChangesStep | src/index.js:161 | the path changes among n+1 ticks are those among the first n, plus the last tick when its path differs |
| Watching.WatchConverges | src/index.js:156-184 | when every tick succeeds, the running path ends at the last resolved path, and exactly one restore runs per change of path |
| Watching.WatchScenario | src/index.js:156-184 | the paths A, A, B, B, A, starting from A, run two restores and end on A |
| Database.IpfsSqliteDb.constructor | src/index.js:22-34 | a new object holds its reference, no configuration, no open stores, no running path and an error count of 0 |
| Database.IpfsSqliteDb.Refresh | src/index.js:36-106 | the result is `LoadConfiguration`, and the object changes as `RefreshedBy` says: a failed fetch adds one to the error count; success stores the configuration and opens each store, named `<Name>.sqlite3` and `<Name>.sqlite3-metadata`, only if it is not yet open |
| Database.IpfsSqliteDb.SavePage | src/index.js:119-141 | the page's download is stored under its own number when it succeeds; nothing else changes |
| Database.IpfsSqliteDb.AwaitAll | src/index.js:238 | in any completion order, the page store ends as the old store plus each successful download at its own page number; the result is true exactly when every download succeeded |
| Database.IpfsSqliteDb.RestoreFirstPage | src/index.js:204-222 | a stale page 0 is downloaded; on success the size record (page length times page count, with the object's reference) and page 0 are written |
| Database.IpfsSqliteDb.VisitPage | src/index.js:193-235 | one pass of the loop takes the visited state from pages 0 .. n-1 to 0 .. n, or stops untouched when page 0 cannot be downloaded |
| Database.IpfsSqliteDb.VisitPages | src/index.js:191-236 | the loop's actions, scheduled saves, current-pages store and page-0 writes are the ones `Pages` specifies |
| Database.IpfsSqliteDb.RestorePages | src/index.js:191-238 | outcome, both stores and the trace equal `RestoreEffect` of the old stores |
| Database.IpfsSqliteDb.Restore | src/index.js:186-193 | a configuration without links rejects with no effect; otherwise as `RestorePages` |
| Database.IpfsSqliteDb.RestoreLatest | src/index.js:186-193 | with no configuration given, refresh from the object's own reference, with the refresh's whole effect on the error count, the configuration and the store names; a reference error rejects; an unavailable configuration rejects as missing links without touching the stores; otherwise the restore runs on the loaded links |
| Database.IpfsSqliteDb.WatchTick | src/index.js:158-182 | the tick's result and new running path are `Tick` of the resolution, refresh and restore outcomes; a refresh runs exactly when the resolved path is new, with its whole effect (a failed fetch adds one to the error count; success stores the configuration and opens the stores), and otherwise the configuration, store names and error count are unchanged; the page stores change exactly as the restore specifies when a restore starts on a configuration with links, and not at all otherwise |

## Left out

- Concurrency: the limiter (`Bottleneck`, at most 100 saves at once) and the interleaving of `await`s. The saves are awaited after the loop in an arbitrary order, which gives the same stores.
- The store writes that are not awaited (the size record, the page puts, `currentPages.put`). They are modelled as taking effect at once and never failing. Dexie storage errors are not modelled.
- Request timeouts, and transient answers. Every network call is a deterministic function, so the two downloads of page 0 agree.
- Tasks that keep running after `Promise.all` rejects. The model settles every scheduled save before reporting the outcome.
- Links without a `Cid` object (`link.Cid["/"]` would throw a TypeError). A link always has a hash text and an optional cid text.
- Floating point in the cache-bust value: `Math.floor(Date.now() / 1000 / 15)` is modelled as integer division of a non-negative millisecond clock by 15000.
- Database.IpfsSqliteDb.WatchTick: the clock is read once per tick. The code reads it again when the resolved path is itself an `/ipns/` reference.
- Database.IpfsSqliteDb.WatchTick: a naming-service answer without `Path` is modelled as a failed resolution, ending the tick. In the code, `Path` is then `undefined`, which differs from the initial `null`. The refresh then falls back to the object's own reference, and a successful restore sets the running id to `undefined`.
- References.ConfigurationId: for the same reason, an `/ipns/` answer without `Path` (where `Path.slice(6)` throws a TypeError) is modelled as `Unresolved`.
- References.DropIpfsPrefix: counts characters, while `slice(6)` counts UTF-16 code units. The two agree on the ASCII paths the naming service returns.
- The `changedPages` table is declared but never used, so it is not modelled.
- The endless `while (true)` loop, the five-second sleep and all logging. One tick is `WatchTick`; a run of successful ticks is `Watching.Watch`.
- `init`, the worker set-up, `window.testDatabase` and `sleep` are browser wiring with no logic of their own.
- `backup` is an empty stub.
- src/index.worker.js is not part of this model.
