# Scheduled-job reconciliation, modelled in Dafny

This project models the reconciliation core of the scheduled-job controller
service. It has three parts.

- **The registry `ScheduledJobsManager`.** It is a JavaScript `Map` from job
  URI to scheduled job, plus a `syncing` lock.
  - `init` loads the store's list of scheduled jobs into an empty registry.
  - `sync` heals the registry against that list. It restarts jobs whose
    frequency changed, adds and starts new ones, and evicts the ones the
    store no longer lists.
  - The guarded `add`, `updateFrequency` and `remove` refuse to run while a
    sync holds the lock.
- **The two `Delta` classes.** They flatten a change batch into its inserted
  and deleted triples and select from them. The newer class selects by
  subject, predicate and object, and a missing or falsy pattern matches
  anything. The older class matches predicate and object exactly and
  returns subjects.
- **The `DeltaEvents` router and its three handlers.** These are
  new scheduled job, deleted scheduled job and updated repeat frequency.
  - The router gives a batch to each handler whose `isMatch` is truthy, in
    list order.
  - Each handler then changes a `Map`-like registry through `has`, `get`,
    `delete` and `add`.

How each part is modelled:

- **Files on values** (`rdf`, `delta_filter`, `legacy_delta`, `seqs`,
  `js_map`). Pure code becomes functions on values with lemmas about them.
  - A JavaScript `Map` is `JsMap.OrderedMap`: an insertion-ordered list of
    keys plus a Dafny `map`. The order matters because `sync` reports
    `removed` in the `Map`'s iteration order.
- **Classes with loops** (`manager`, `job_map`, the handlers, `routing`).
  Code that changes state becomes a class with fields, and its loops become
  `while` loops.
  - Every loop is proved equal to a function of the old state: `InitAll`,
    `HealAll`, `EvictAll`, `SyncAll`, `DeleteAll`, `NewAll`, `UpdateAll` or
    `RouteAll`.
  - What the source promises is then proved about those functions, in
    `manager_proofs` and beside each handler.
- **Jobs are values** (`ScheduledJobs.Job`: URI, frequency, running).
  - When the source changes a held job in place, the model writes the
    changed job back under the same key.
  - `start()` succeeds exactly when a cron checker accepts the job's
    frequency. The checker is a parameter.
- **The store is an input.**
  - The list of scheduled jobs that `getScheduledJobs` returns is the
    `fetched` argument. `None` stands for a query that failed.
  - The lookups and encryption helpers the handlers call are the fields of
    `Lookups.Store`.

### Behaviour of the code the model keeps

- **`init`, fetch before check.** `init` queries the store first and only
  then checks that the registry is empty. A failing query is therefore
  reported even on a non-empty registry.
- **`init` and `sync`, failed starts.** When `start()` throws after `_add`,
  the stopped job stays in the registry. A later `sync` sees it as held
  with the same frequency and does not retry it.
- **`sync`, failed restarts.** `_updateFrequency` writes the new frequency
  before `start()` throws. `sync` then removes that job.
- **Updated handler, `isMatch`.** `isMatch` returns the first matching
  insert, or `false`; the model uses an `Option`.
  - Its subject and predicate are passed as term objects. An empty subject
    value is therefore a wildcard, just as a falsy pattern is in
    `getChangesFor`.
- **Updated handler, `process`.** `process` walks every `repeatFrequency`
  insert, including those without a matching delete.

## Model

| member | source | states |
|---|---|---|
| ScheduledJobs.Start | lib/scheduled-jobs-manager.js:217-219 | `start()` succeeds iff the frequency is a valid cron; on success the job runs and is otherwise unchanged; on failure the error names the rejected frequency |
| JsMap.OrderedMap.Set | lib/scheduled-jobs-manager.js:200 | `Map.set` stores the value under the key; a present key keeps its place in the iteration order, a new key goes last; keys stay distinct and equal to the stored ones |
| JsMap.OrderedMap.Delete | lib/scheduled-jobs-manager.js:232 | `Map.delete` removes exactly that key and keeps the order of the others; deleting an absent key changes nothing |
| JsMap.OrderedMap.Values | lib/scheduled-jobs-manager.js:29 | `values()` lists the stored value of each key, in key order |
| JsMap.ValuesAreStored | lib/scheduled-jobs-manager.js:28-30 | the listed values are exactly the stored values, and the list is empty iff nothing is stored |
| JsMap.Empty | lib/scheduled-jobs-manager.js:19 | `new Map()` is valid and holds nothing |
| JsMap.DeleteAfterSet | lib/scheduled-jobs-manager.js:92-96 | writing a new value under a key and then deleting the key is the same as deleting it; this is why a failed update leaves no trace |
| Manager.HeldUrisAreKeys | lib/scheduled-jobs-manager.js:88 | in a registry where jobs are keyed by their own URIs, `inMemoryJobs.map(job => job.uri)` contains exactly the registry's keys |
| Manager.Uris | lib/scheduled-jobs-manager.js:122 | lists each fetched row's URI, position by position |
| Manager.JobUris | lib/scheduled-jobs-manager.js:88 | lists each job's URI, position by position |
| Manager.AddAndStart | lib/scheduled-jobs-manager.js:47 | `_add(uri, frequency).start()` keeps every job under its own URI |
| Manager.InitStep | lib/scheduled-jobs-manager.js:46-51 | one row of `init` keeps every job under its own URI |
| Manager.InitAll | lib/scheduled-jobs-manager.js:45-52 | `init`'s loop keeps every job under its own URI |
| Manager.HealStep | lib/scheduled-jobs-manager.js:88-116 | one row of `sync`'s healing pass keeps every job under its own URI |
| Manager.HealAll | lib/scheduled-jobs-manager.js:87-117 | `sync`'s healing pass keeps every job under its own URI |
| Manager.EvictStep | lib/scheduled-jobs-manager.js:122-130 | one job of `sync`'s eviction pass keeps every job under its own URI |
| Manager.EvictAll | lib/scheduled-jobs-manager.js:119-131 | `sync`'s eviction pass keeps every job under its own URI |
| Manager.SyncAll | lib/scheduled-jobs-manager.js:81-138 | the whole body of `sync` keeps every job under its own URI |
| Manager.ScheduledJobsManager.constructor | lib/scheduled-jobs-manager.js:18-21 | a new manager holds no jobs and is not syncing |
| Manager.ScheduledJobsManager.InMemoryJobs | lib/scheduled-jobs-manager.js:28-30 | the getter lists one job per key; it is empty iff the registry is; its jobs are exactly the held jobs, and their URIs exactly the keys |
| Manager.ScheduledJobsManager.AddUnguarded | lib/scheduled-jobs-manager.js:193-204 | a falsy job or empty URI throws 'job can not be empty', and other values throw 'needs to be … ScheduledJob'; both leave the registry unchanged. A URI stores a new stopped job with the given or default frequency, and a job object is stored under its URI; either overwrites any entry there and returns the stored job |
| Manager.ScheduledJobsManager.StartHeld | lib/scheduled-jobs-manager.js:219 | `start()` on the held job through the map's reference: it runs iff its frequency is valid; on failure nothing changes |
| Manager.ScheduledJobsManager.UpdateFrequencyUnguarded | lib/scheduled-jobs-manager.js:214-220 | an unknown URI throws and changes nothing. Otherwise only that job changes: it takes the new frequency and runs iff that frequency is valid. The new frequency stays even when `start()` throws, and the key set and order are unchanged |
| Manager.ScheduledJobsManager.RemoveUnguarded | lib/scheduled-jobs-manager.js:228-234 | an unknown URI throws and changes nothing; otherwise exactly that key is deleted and the stored job returned |
| Manager.ScheduledJobsManager.Add | lib/scheduled-jobs-manager.js:154-158 | while syncing, throws 'adding locked' with the registry unchanged; otherwise does what `_add` does and returns nothing |
| Manager.ScheduledJobsManager.UpdateFrequency | lib/scheduled-jobs-manager.js:168-172 | while syncing, throws 'updating locked' with the registry unchanged; otherwise does what `_updateFrequency` does |
| Manager.ScheduledJobsManager.Remove | lib/scheduled-jobs-manager.js:180-184 | while syncing, throws 'removing locked' with the registry unchanged; otherwise does what `_remove` does, returning the removed job |
| Manager.ScheduledJobsManager.AddAndStartRow | lib/scheduled-jobs-manager.js:111 | `_add(uri, frequency).start()` on the registry agrees with `AddAndStart` |
| Manager.ScheduledJobsManager.HealRow | lib/scheduled-jobs-manager.js:87-116 | the callback of `sync`'s first `forEach`, both `catch`es included, agrees with `HealStep` |
| Manager.ScheduledJobsManager.Init | lib/scheduled-jobs-manager.js:40-59 | a failed fetch throws with nothing changed; a non-empty registry throws 'has running jobs' with nothing changed; otherwise the report and the registry are those of `InitAll` from an empty registry |
| Manager.ScheduledJobsManager.AdmitAll | lib/scheduled-jobs-manager.js:45-52 | `init`'s `forEach` agrees with `InitAll` |
| Manager.ScheduledJobsManager.AdmitRow | lib/scheduled-jobs-manager.js:46-51 | one callback of `init`'s `forEach` agrees with `InitStep` |
| Manager.ScheduledJobsManager.Sync | lib/scheduled-jobs-manager.js:73-145 | while syncing, throws 'Sync locked' and changes nothing; otherwise `syncing` is false afterwards even when the fetch fails, a failed fetch leaves the registry unchanged, and a successful one yields the report and registry of `SyncAll` |
| Manager.ScheduledJobsManager.HealPass | lib/scheduled-jobs-manager.js:87-117 | `sync`'s first `forEach` agrees with `HealAll` |
| Manager.ScheduledJobsManager.EvictPass | lib/scheduled-jobs-manager.js:119-131 | `sync`'s second `forEach`, over the `inMemoryJobs` snapshot taken after healing, agrees with `EvictAll` |
| Manager.ScheduledJobsManager.EvictEach | lib/scheduled-jobs-manager.js:121-131 | the second `forEach` over a given snapshot agrees with `EvictAll` |
| Manager.ScheduledJobsManager.EvictRow | lib/scheduled-jobs-manager.js:122-130 | one callback of the second `forEach` agrees with `EvictStep`; an already missing URI is still reported as removed |
| ManagerProofs.InitPartition | lib/scheduled-jobs-manager.js:45-56 | `init` splits the fetched rows, in fetch order, into `started` (non-empty URI and valid frequency) and `failed` (all other rows). Each failure carries the error thrown: empty job, or invalid frequency |
| ManagerProofs.InitRegistry | lib/scheduled-jobs-manager.js:45-52 | for distinct fetched URIs, `init` leaves exactly the non-empty URIs registered. Each holds its fetched frequency and runs iff that frequency is valid; a failed start leaves the job registered but stopped |
| ManagerProofs.AddAndStartEntries | lib/scheduled-jobs-manager.js:47 | `_add(uri, f).start()` ignores an empty URI and otherwise stores exactly `Job(uri, f, valid(f))` under `uri` |
| ManagerProofs.HealStepFrame | lib/scheduled-jobs-manager.js:87-117 | handling a row with another URI neither touches the job held under `k` nor reports `k` |
| ManagerProofs.HealFrame | lib/scheduled-jobs-manager.js:87-117 | a URI the fetched list does not contain is neither touched nor reported by the healing pass |
| ManagerProofs.HealStepOutcome | lib/scheduled-jobs-manager.js:88-116 | the six cases of one row, as `RowOutcome` states them, for a row whose URI nothing earlier touched |
| ManagerProofs.HealRowOutcome | lib/scheduled-jobs-manager.js:87-117 | for distinct fetched URIs, each row ends in exactly the outcome its case dictates. An unknown URI is started, or failed and kept stopped. An equal frequency is left alone. A changed frequency is updated and running, or failed and evicted. The row is reported only in the matching list |
| ManagerProofs.EvictEffect | lib/scheduled-jobs-manager.js:119-131 | the eviction pass only removes entries; it keeps every desired URI and removes every undesired URI of the snapshot |
| ManagerProofs.EvictRemovedIsStale | lib/scheduled-jobs-manager.js:119-131 | over the map's values, `removed` is the list of undesired held jobs, in map order, with their frequencies |
| ManagerProofs.HealAllKeepsStale | lib/scheduled-jobs-manager.js:87-117 | healing only rows of desired URIs leaves the list of undesired held jobs unchanged |
| ManagerProofs.SyncRemovedIsStale | lib/scheduled-jobs-manager.js:87-138 | `removed` is, in registry order, exactly the jobs held before `sync` whose URI is not in the fetched list, with the frequency they had |
| ManagerProofs.SyncEvicts | lib/scheduled-jobs-manager.js:119-131 | after `sync` every held URI is in the fetched list |
| ManagerProofs.SyncRowOutcome | lib/scheduled-jobs-manager.js:87-131 | for distinct fetched URIs, `sync`'s final registry and report meet each row's `RowOutcome`; eviction undoes none of it |
| ManagerProofs.SyncKeepsListed | lib/scheduled-jobs-manager.js:121-130 | no fetched URI is ever reported as removed |
| ManagerProofs.EvictKeepsDesired | lib/scheduled-jobs-manager.js:122 | the eviction pass leaves the entry of a desired URI as it was |
| ManagerProofs.RemovedNotDesired | lib/scheduled-jobs-manager.js:122-128 | every reported removal has an undesired URI |
| ManagerProofs.HealIdle | lib/scheduled-jobs-manager.js:88-90 | when every row is held with its frequency, healing changes nothing and reports nothing |
| ManagerProofs.EvictIdle | lib/scheduled-jobs-manager.js:121-122 | when every snapshot job is desired, eviction changes nothing and reports nothing |
| ManagerProofs.SyncIdempotent | lib/scheduled-jobs-manager.js:87-138 | for distinct fetched URIs and a `sync` whose only failures are failed starts of new, non-empty URIs, a second `sync` with the same list leaves the registry as it was and reports nothing started, updated, failed or removed |
| Rdf.FlattenAppend | lib/delta/delta.js:14-25 | flattening two batches in sequence is concatenating their flattenings, for inserts and deletes |
| Rdf.FlattenMembership | lib/delta/delta.js:14-25 | a triple is among the flattened inserts (deletes) iff some change set inserts (deletes) it |
| Rdf.Subjects | lib/delta.js:20 | `.map(t => t.subject.value)`: same length, and each position holds that triple's subject |
| DeltaFilter.GetChangesFor | lib/delta/delta.js:55-66 | every returned triple comes from the input and matches; none is longer than the input; every matching input triple is returned |
| DeltaFilter.SelectionNonEmpty | lib/delta/delta.js:55-66 | the selection is non-empty iff some input triple matches |
| DeltaFilter.HasInsertsFor | lib/delta/delta.js:27-32 | true iff some inserted triple matches, iff `getInsertsFor` is non-empty |
| DeltaFilter.HasDeletesFor | lib/delta/delta.js:41-46 | true iff some deleted triple matches, iff `getDeletesFor` is non-empty |
| DeltaFilter.GetChangesForExact | lib/delta/delta.js:60-65 | the selection is a subsequence of the input, holding each matching triple as often as the input does and no other triple |
| DeltaFilter.GetChangesForIdempotent | lib/delta/delta.js:60-65 | filtering the selection again with the same patterns returns it unchanged |
| DeltaFilter.GetChangesForWildcard | lib/delta/delta.js:55-66 | with all three patterns left out, the whole list comes back |
| DeltaFilter.PatternsCompareByValue | lib/delta/delta.js:69-73 | a term object selects what the string of its `.value` selects, and empty strings select everything |
| DeltaFilter.GetInsertsForAppend | lib/delta/delta.js:34-53 | selecting from two batches in sequence is concatenating the selections from each, for inserts and deletes |
| LegacyDelta.GetInsertsFor | lib/delta.js:17-21 | no longer than the inserts; a value occurs iff it is the subject of an insert with exactly that predicate and object |
| LegacyDelta.GetDeletesFor | lib/delta.js:23-27 | no longer than the deletes; a value occurs iff it is the subject of a delete with exactly that predicate and object |
| LegacyDelta.GetInsertsForPredicates | lib/delta.js:29-33 | no longer than the inserts; a value occurs iff it is the subject of an insert with that predicate |
| LegacyDelta.GetDeletesForPredicates | lib/delta.js:35-39 | no longer than the deletes; a value occurs iff it is the subject of a delete with that predicate |
| LegacyDelta.ForIsSubsequenceOfForPredicates | lib/delta.js:17-39 | the predicate-and-object selection is an in-order subsequence of the predicate-only one, for inserts and for deletes |
| LegacyDelta.AgreesWithDeltaFilter | lib/delta.js:17-27 | for a non-empty predicate and object the old class returns, in order, the subjects the newer class's `getInsertsFor`/`getDeletesFor` select |
| JobMaps.JobMap.constructor | lib/delta/events/deleted-scheduled-jobs.js:8-10 | the registry handed to a handler, as given |
| JobMaps.JobMap.Has | lib/delta/events/new-scheduled-jobs.js:20 | `has` is true iff the URI is held |
| JobMaps.JobMap.Get | lib/delta/events/updated-scheduled-jobs.js:27 | `get` yields the held job, or nothing iff the URI is not held |
| JobMaps.JobMap.Delete | lib/delta/events/deleted-scheduled-jobs.js:19 | `delete` removes the entry, if any, keeping the others and their order |
| JobMaps.JobMap.Add | lib/delta/events/new-scheduled-jobs.js:30 | `add(uri, frequency)` stores and returns a new stopped job |
| JobMaps.JobMap.Replace | lib/delta/events/updated-scheduled-jobs.js:29-30 | an in-place change of a held job: the entry takes the new value and keeps its place |
| DeletedJobs.DeleteAll | lib/delta/events/deleted-scheduled-jobs.js:18-20 | deleting subject after subject keeps the registry valid |
| DeletedJobs.DeleteAllEffect | lib/delta/events/deleted-scheduled-jobs.js:18-20 | afterwards no listed subject is held; every other entry is held unchanged; the remaining keys keep their order |
| DeletedJobs.DeletedScheduledJobsEvent.constructor | lib/delta/events/deleted-scheduled-jobs.js:8-10 | keeps the registry it is given |
| DeletedJobs.DeletedScheduledJobsEvent.IsMatch | lib/delta/events/deleted-scheduled-jobs.js:29-31 | true iff some deleted triple has predicate rdf:type and object cogs:ScheduledJob |
| DeletedJobs.DeletedScheduledJobsEvent.Process | lib/delta/events/deleted-scheduled-jobs.js:12-21 | calls `delete` once per selected delete's subject, in order; the registry becomes `DeleteAll` of them; the batch's inserts play no part |
| DeletedJobs.DeletedScheduledJobsEvent.DeleteEach | lib/delta/events/deleted-scheduled-jobs.js:18-20 | the loop agrees with `DeleteAll` |
| NewJobs.AddAndStart | lib/delta/events/new-scheduled-jobs.js:30 | `add(uri, frequency).start()` stores `Job(uri, frequency, valid(frequency))`, appending a new key and keeping an existing key's place |
| NewJobs.TryAdd | lib/delta/events/new-scheduled-jobs.js:20-39 | a held subject makes no call; otherwise the subject is looked up first, and only that subject is looked up. The visit ends in an add exactly when the subject is not held and its job is ready: the store describes it, and its encryption was already done or its collection is found and the encryption succeeds. Then the registry stores the looked-up URI and frequency, running iff valid; otherwise the registry is unchanged. An add is always the last call |
| NewJobs.NewAll | lib/delta/events/new-scheduled-jobs.js:19-40 | the loop keeps the registry valid |
| NewJobs.TryAddEncryptsFirst | lib/delta/events/new-scheduled-jobs.js:26-30 | within one subject, encryption is called only right after the check answered "not yet" and the collection was found; an add follows either a check that answered "done" or a successful encryption |
| NewJobs.NewEncryptsFirst | lib/delta/events/new-scheduled-jobs.js:19-40 | the same encryption-before-add order holds over the whole batch |
| NewJobs.NewKeys | lib/delta/events/new-scheduled-jobs.js:19-40 | the handler never removes a job: the held URIs afterwards are those held before plus those added |
| NewJobs.NewSkipsHeld | lib/delta/events/new-scheduled-jobs.js:20 | a subject already held is never looked up |
| NewJobs.NewIsolatesFailures | lib/delta/events/new-scheduled-jobs.js:19-39 | whatever failed before, every subject not held when its turn comes is looked up |
| NewJobs.NewWhenLookupsFail | lib/delta/events/new-scheduled-jobs.js:19-39 | when `getScheduledJob` never yields a job, the batch only looks subjects up and the registry is unchanged |
| NewJobs.NewRegisters | lib/delta/events/new-scheduled-jobs.js:19-40 | every subject not held when its turn comes and whose job is ready has its looked-up URI held after the loop |
| NewJobs.NewScheduledJobsEvent.constructor | lib/delta/events/new-scheduled-jobs.js:9-11 | keeps the registry it is given |
| NewJobs.NewScheduledJobsEvent.IsMatch | lib/delta/events/new-scheduled-jobs.js:49-51 | true iff some inserted triple has predicate rdf:type and object cogs:ScheduledJob |
| NewJobs.NewScheduledJobsEvent.Attempt | lib/delta/events/new-scheduled-jobs.js:20-38 | one loop body with its `try`/`catch` agrees with `TryAdd`, calls and registry |
| NewJobs.NewScheduledJobsEvent.Process | lib/delta/events/new-scheduled-jobs.js:13-41 | the calls made and the final registry are those of `NewAll` over the subjects of the selected inserts |
| UpdatedJobs.FindPaired | lib/delta/events/updated-scheduled-jobs.js:59 | `find`: a result exists iff some insert is paired, and it is the first paired insert |
| UpdatedJobs.Retime | lib/delta/events/updated-scheduled-jobs.js:22-49 | a failed lookup, an absent job or an equal frequency leave the registry as it was. A differing frequency is written and the job restarted in place; if the restart throws, the job is deleted |
| UpdatedJobs.UpdateAll | lib/delta/events/updated-scheduled-jobs.js:21-50 | the loop keeps the registry valid |
| UpdatedJobs.UpdateAllEffect | lib/delta/events/updated-scheduled-jobs.js:21-50 | no job is added. A URI no lookup named keeps its membership. A job that changed carries the frequency of a lookup that named it and is running |
| UpdatedJobs.UpdateWhenLookupsFail | lib/delta/events/updated-scheduled-jobs.js:21-49 | when `getScheduledJobForCronSchedule` never yields a job, the registry is unchanged |
| UpdatedJobs.PairedMeansDeleted | lib/delta/events/updated-scheduled-jobs.js:59 | the `find` test holds iff a `repeatFrequency` delete has the same subject; an empty subject matches any |
| UpdatedJobs.FrequencyInsertsAre | lib/delta/events/updated-scheduled-jobs.js:54-57 | the selected inserts are exactly the inserts with predicate `repeatFrequency` |
| UpdatedJobs.PairedInsertExists | lib/delta/events/updated-scheduled-jobs.js:53-62 | some selected insert passes the test iff some `repeatFrequency` insert has a paired delete |
| UpdatedJobs.UpdatedScheduledJobsEvent.constructor | lib/delta/events/updated-scheduled-jobs.js:12-14 | keeps the registry it is given |
| UpdatedJobs.UpdatedScheduledJobsEvent.IsMatch | lib/delta/events/updated-scheduled-jobs.js:53-62 | truthy iff some `repeatFrequency` insert has a `repeatFrequency` delete for its subject; the value is the first such insert. An insert without such a delete does not match |
| UpdatedJobs.UpdatedScheduledJobsEvent.Reconcile | lib/delta/events/updated-scheduled-jobs.js:22-49 | one loop body, both `catch`es included, agrees with `Retime` |
| UpdatedJobs.UpdatedScheduledJobsEvent.Process | lib/delta/events/updated-scheduled-jobs.js:16-51 | looks up every `repeatFrequency` insert's subject in order, paired or not; the registry becomes `UpdateAll` of them |
| Routing.Handle | lib/delta/delta-events.js:23 | each handler's `process` keeps the registry valid |
| Routing.RouteAll | lib/delta/delta-events.js:20-25 | the routing loop keeps the registry valid |
| Routing.RouteProcessesMatches | lib/delta/delta-events.js:20-25 | an event is processed iff its `isMatch` is truthy; the processed indices are in list order, each at most once, and within the list |
| Routing.DeltaEvents.constructor | lib/delta/delta-events.js:11-13 | keeps the event list and the registry its handlers share |
| Routing.DeltaEvents.Dispatch | lib/delta/delta-events.js:21-24 | `process` runs iff `isMatch` is truthy, and then the registry is what that handler's function gives |
| Routing.DeltaEvents.Process | lib/delta/delta-events.js:15-26 | a raw input is wrapped in a `Delta` once and routed as that; the registry and processed indices are those of `RouteAll` |

## Left out

- Asynchrony. Every `await` is modelled as completing in order, and the
  `sync` lock as a flag checked on entry. No concurrent call is modelled.
- Aliasing of job objects. Jobs are values, so an in-place change to a
  held job becomes writing it back under its key. A job object reachable
  under two keys, or changed after `_remove` returned it, is not modelled.
- Timers and the cron library:
  - `start()` and `stop()` are reduced to the `running` flag;
  - `_remove(uri).stop()` in `sync` is modelled as the removal alone;
  - cron validity is the `cronValid` parameter.
- The handlers import five helpers that the repository does not define:
  `getScheduledJob` and `getScheduledJobForCronSchedule` from
  lib/scheduled-job.js, and `alreadyEncryptedAuthenticationConfiguration`,
  `getCollectionFromJob` and `updateSourceCollection` from
  lib/credential-helpers.js. Neither file exports them, and the `ScheduledJob`
  class lib/scheduled-jobs-manager.js:4 imports is not exported either.
  The model takes the helpers as arbitrary functions, the fields of
  `Lookups.Store`. As the code stands the imports resolve to nothing and
  every lookup throws inside its `try`; that is the store whose lookups
  always fail, covered by NewJobs.NewWhenLookupsFail and
  UpdatedJobs.UpdateWhenLookupsFail.
  - Within one batch a lookup always returns the same answer, and the
    store does not see the handler's own changes.
  - The encryption itself, including its AES cipher, is not modelled:
    `encryptCollection` only says whether it succeeds.
- `getScheduledJobs` (lib/scheduled-jobs-manager.js:244-255) is a SPARQL
  query. Its result is the `fetched` argument of `Init` and `Sync`.
- Logging through `console`.
- Event titles are carried in `Routing.Event` but not used.
- app.js, constants.js beyond its three IRIs, and the other lib/ files.
- Routing.RouteProcessesMatches: the source says nothing about a handler
  that throws, since `process` has no `catch` around an event. That path
  is not modelled because no modelled handler throws: every fallible call
  inside the handlers sits in a `try`, given the Map-like JobMap interface
  assumed below.
- Routing.DeltaEvents.constructor: the handlers are required to share one
  registry. The source leaves the wiring to its caller, and no wiring of
  `DeltaEvents` appears in the repository.
- Manager.ScheduledJobsManager.Add: the source's `add` returns `undefined`
  even on success, so the model returns only whether it threw.
- ManagerProofs.SyncRowOutcome, ManagerProofs.HealRowOutcome,
  ManagerProofs.InitRegistry and ManagerProofs.SyncIdempotent are stated
  for a fetched list with distinct URIs. A URI listed twice, with two
  frequencies, is handled twice, and its second row depends on the first.
- ManagerProofs.SyncIdempotent allows the first `sync` to fail only at
  starting a new job with a non-empty URI. Such a job stays held, stopped,
  with the fetched frequency, and a second `sync` leaves it alone. Two
  failures are excluded because a second `sync` does act on them: an
  empty URI fails again, and a job whose restart failed was evicted, so
  it is added afresh.
- Manager.EvictStep, DeletedJobs.DeleteAll, UpdatedJobs.Retime: these
  removals do not call `stop()` on the removed job, unlike
  lib/scheduled-jobs-manager.js:96. In the source the removed job's cron
  timer therefore keeps firing. The model keeps no timers apart from the
  registry, so it does not show this.
- JobMaps.JobMap: the handlers' registry is assumed to offer Map-like
  `has`, `get` and `delete`, and an `add` that returns the stored job.
  No such class is in the repository. ScheduledJobsManager has no `has`,
  `get` or `delete`, and its `add` returns `undefined`. Handed one,
  lib/delta/events/new-scheduled-jobs.js:20 would throw outside any
  `try` and reject the router's `process`. Line 30's `.start()` would
  throw into the `catch` and leave a stopped job stored. The handler
  proofs do not cover that wiring.
- Both `Delta` classes wrap the same list of change sets, so they share
  the one datatype `Rdf.Delta`. A triple's graph is not modelled, since
  neither class reads it.
