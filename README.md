# renovate-executor, modelled in Dafny

renovate-executor runs Renovate for the repositories a GitHub or GitLab account can see.
A cron job fetches the repositories through a forge handler and cuts them into batches.
A webhook hands a single repository to the handler's check and makes a one-repository batch.
Each batch is named by the SHA-1 of its repositories' ids joined with ",".
A job worker keeps two independent work classes: scheduled ("cron") batches and webhook ("hook") batches.
Each class has a pending queue in insertion order, an in-flight cache keyed by batch id, and a limit.
On every tick the worker probes the in-flight jobs and forgets the stopped ones.
It then admits pending batches through the runner while slots remain, and finally calls the runner's clean-up.
In front of the HTTP routes, two middlewares check the API secret and the webhook secret.

The model has these parts:

- `Batches` (`batch.dfy`): repositories, batch types and batch identity. SHA-1 is a parameter `sha1`.
- `Runners` (`runner.dfy`): the runner as two oracles. `checkJob` answers Running, Stopped or a rejection. `runJob` answers whether the launch resolved.
- `Scheduling` (`scheduling.dfy`): one work class as a value (queue and cache). Its functions specify enqueue, reconcile and admission. Its lemmas are the scheduler's invariants and bounds.
- `Worker` (`worker.dfy`): the `JobWorker` class. Its fields are updated in place by methods that are proved against `Scheduling`.
- `Cron` (`cron.dfy`) and `Hook` (`hook.dfy`): the two producers. Each has a function for what it decides and a method for what it does to the worker.
- `Handlers` (`handler.dfy`): the handler base class with its configuration and event allow-list.
- `Selection`, `GitHub`, `GitLab` (`selection.dfy`, `github.dfy`, `gitlab.dfy`): the listing pipelines (pagination, filters, de-duplication, sort), the webhook checks and GitLab's merge-request approval. Forge API calls are oracle parameters.
- `Password` (`password.dfy`): the two secret middlewares. Each is modelled as the list of effects it has (`next()` called, or a 401 answer).
- `Strings`, `Seqs`, `Wrappers`: split/join, ASCII lower-casing, `parseInt`, `includes`, filter, a stable sort and `Option`/`Result`.

Admission follows the code. The loop `for (i = 0; i <= maxJobs - slots; i++)` makes `maxJobs - slots + 1` attempts.
So a class can hold `maxJobs + 1` jobs in flight: three ready batches under a limit of 2 are all started (`Scheduling.ThreeAdmittedUnderLimitTwo`).
`maxBatchJobs` and `maxHookJobs` read as the most jobs a class runs at once, but the code admits one more. The model keeps the code's behaviour, and `Worker.JobWorker.Valid` bounds each cache by `Ceiling(maxJobs) = max(0, maxJobs + 1)`.

## Model

| member | source | states |
|---|---|---|
| Batches.BatchType.Value | src/types/batch.ts:17-20 | the two batch types serialise as "cron" and "hook", and only Cron gives "cron" |
| Batches.BatchIdDependsOnlyOnIds | src/types/batch.ts:67-71 | two repository lists with the same id sequence get the same batch id, whatever their other fields |
| Batches.HashInputRecoversIds | src/types/batch.ts:69 | for a non-empty list of comma-free ids, splitting the hash input at "," gives back the id list |
| Batches.HashInputInjective | src/types/batch.ts:69 | non-empty lists of comma-free ids with different id sequences hash different inputs |
| Batches.HashInputOrderSensitive | src/types/batch.ts:69 | the same two repositories in the other order get a different hash input |
| Batches.HashInputCommaCollision | src/types/batch.ts:69 | ids "1" and "1,1" are distinct yet [x, y] and [y, x] hash the same input |
| Batches.EmptyListCollidesWithEmptyId | src/types/batch.ts:69 | the empty list and a list of one repository with id "" hash the same input "" |
| Scheduling.GetNextJob | src/job/worker.ts:176-185 | an empty queue gives no batch and stays empty; otherwise the batch returned followed by the rest is the old queue |
| Scheduling.StartJob | src/job/worker.ts:157-174 | an id already in flight leaves the cache unchanged; otherwise the batch is added exactly when its launch resolves, and no other key changes |
| Scheduling.RemoveJob | src/job/worker.ts:206-209 | the batch's id is gone, every other key is kept, and the result is a sub-map |
| Scheduling.EnqueueValid | src/job/worker.ts:68-76 | enqueuing keeps queue ids unique and disjoint from the cache |
| Scheduling.EnqueueEffect | src/job/worker.ts:68-76 | the cache is untouched; afterwards the id is pending or in flight; a known id changes nothing; an unknown one is appended last |
| Scheduling.EnqueueSameIdTwice | src/job/worker.ts:70 | enqueuing a second batch with the same id is a no-op (idempotence by id) |
| Scheduling.ShrinkCacheValid | src/job/worker.ts:191-200 | removing in-flight entries keeps the class invariant and does not grow the cache |
| Scheduling.ReconcileEffect | src/job/worker.ts:191-200 | after reconciliation exactly the in-flight batches whose probe did not report stopped remain |
| Scheduling.AdmitStepValid | src/job/worker.ts:150-153 | one admission step keeps queue ids unique and disjoint from the cache |
| Scheduling.AdmitValid | src/job/worker.ts:149-154 | the admission loop keeps the class invariant |
| Scheduling.AdmitDequeues | src/job/worker.ts:149-154 | n iterations dequeue exactly the min(n, queue length) oldest batches, keep every old entry, and start at most that many jobs |
| Scheduling.AdmitQueue | src/job/worker.ts:176-185 | n iterations leave the queue without its min(n, queue length) oldest batches |
| Scheduling.AdmitKeepsCache | src/job/worker.ts:157-167 | the admission loop never drops or changes an entry already in flight |
| Scheduling.AdmitCacheGrowth | src/job/worker.ts:149-154 | n iterations start at most min(n, queue length) jobs |
| Scheduling.AdmitCacheKeys | src/job/worker.ts:149-154 | after the loop an id is in flight exactly when it was before or a dequeued batch with that id launched |
| Scheduling.AdmitCacheValues | src/job/worker.ts:157-167 | each dequeued batch that launched is stored under its own id |
| Scheduling.AdmitCachesLaunched | src/job/worker.ts:149-167 | the i-th queued batch, dequeued and launched, is cached under its id when no earlier batch or in-flight entry shares that id |
| Scheduling.AdmitLaunches | src/job/worker.ts:149-154 | every dequeued batch leaves the queue, and one is in flight only if its launch resolved |
| Scheduling.AdmitAllLaunch | src/job/worker.ts:149-154 | when the first n batches all launch, the cache grows by exactly n |
| Scheduling.HandleLaneBound | src/job/worker.ts:141-155 | a tick keeps the invariant and keeps the cache within maxJobs + 1 |
| Scheduling.HandleLaneFillsCeiling | src/job/worker.ts:149 | from an empty cache with maxJobs + 1 ready batches, a tick starts maxJobs + 1 jobs and leaves the rest queued |
| Scheduling.ThreeAdmittedUnderLimitTwo | src/job/worker.ts:149 | with limit 2, three ready batches are all admitted in one tick |
| Worker.CheckCache | src/job/worker.ts:191-204 | ok iff no probe rejects; on success the cache is exactly the reconciled one; on a rejection it lies between that and the old cache |
| Worker.HandleCache | src/job/worker.ts:141-155 | with no rejecting probe the class becomes HandleLane of the old one; on a rejection the queue is untouched and nothing is admitted |
| Worker.AdmitPending | src/job/worker.ts:149-154 | the admission loop yields Admit with maxJobs - slots + 1 attempts (none when slots > maxJobs) and keeps the class invariant |
| Worker.CacheValues | src/job/worker.ts:96-108 | the in-flight batches, each once: same count as the cache, same members, unique ids |
| Worker.JobWorker.constructor | src/job/worker.ts:46-62 | the limits are as given (default 10 each) and both classes start empty |
| Worker.JobWorker.AddBatchJob | src/job/worker.ts:68-76 | the scheduled class becomes Enqueue of the old one; the webhook class is unchanged; the invariant holds |
| Worker.JobWorker.AddHookJob | src/job/worker.ts:82-90 | the webhook class becomes Enqueue of the old one; the scheduled class is unchanged; the invariant holds |
| Worker.JobWorker.GetBatchJobs | src/job/worker.ts:96-99 | returns the in-flight scheduled batches, each exactly once |
| Worker.JobWorker.GetHookJobs | src/job/worker.ts:105-108 | returns the in-flight webhook batches, each exactly once |
| Worker.JobWorker.GetBatchQueue | src/job/worker.ts:114-117 | the pending scheduled batches in insertion order, with unique ids, none also in flight |
| Worker.JobWorker.GetHookQueue | src/job/worker.ts:123-126 | the pending webhook batches in insertion order, with unique ids, none also in flight |
| Worker.JobWorker.Handle | src/job/worker.ts:132-139 | scheduled class first, then webhook class, each as HandleLane; a rejecting probe stops the tick there; clean-up runs only after both; the invariant holds |
| Cron.SlicesCountBounds | src/job/cron.ts:40-47 | the slicing loop makes k slices with (k-1)·size < n ≤ k·size |
| Cron.SlicesCount | src/job/cron.ts:40-47 | the number of slices is ceil(n / batch_size) |
| Cron.SlicesConcat | src/job/cron.ts:40-41 | the slices concatenated give back the fetched list in order |
| Cron.SlicesSizes | src/job/cron.ts:41 | every slice but the last holds batch_size repositories; the last holds 1 to batch_size |
| Cron.SliceStart | src/job/cron.ts:40-41 | slice k starts at repository k·batch_size |
| Cron.SliceCommaFree | src/job/cron.ts:41-43 | slicing a list of comma-free ids gives slices of comma-free ids |
| Cron.CronHashInputsDistinct | src/job/cron.ts:40-47 | with distinct comma-free ids, two different slices hash different inputs |
| Cron.TwentyFiveInTens | src/job/cron.ts:40-47 | 25 repositories in tens give slices of 10, 10 and 5, in order |
| Cron.CronBatchesRepositories | src/job/cron.ts:42-46 | the batches' repository lists are exactly the slices |
| Cron.CronPlanBatches | src/job/cron.ts:33-47 | on success, the batches partition the fetched list in order, there are ceil(n / batch_size) of them, each is a Cron batch named by its repositories, and each holds 1 to batch_size repositories |
| Cron.CronBatchesStep | src/job/cron.ts:40-47 | the batch list is the first slice's batch followed by the batches of the rest |
| Cron.MakeBatches | src/job/cron.ts:39-47 | the loop builds exactly the specified batch list |
| Cron.EnqueueBatches | src/job/cron.ts:53-55 | the scheduled class becomes the old one with the batches enqueued one at a time in order; the webhook class is unchanged |
| Cron.EnqueueAllEffect | src/job/cron.ts:53-55 | after the enqueue loop every batch's id is pending or in flight, the cache is unchanged, and the invariant holds |
| Cron.EnqueueAllKeepsPending | src/job/cron.ts:53-55 | an id already pending stays pending through further enqueues |
| Cron.EnqueueAllSnoc | src/job/cron.ts:53-55 | enqueuing a list and then one more batch is enqueuing the extended list |
| Cron.CronJob | src/job/cron.ts:12-56 | "Handler not set", "Job-Worker not set" or the fetch error are thrown before any change; otherwise the scheduled class becomes the old one with the planned batches enqueued in order; the webhook class is unchanged |
| Hook.HookBatch | src/job/hook.ts:46-50 | a webhook batch holds just the repository and is named by the SHA-1 of its id |
| Hook.HookGuardOrder | src/job/hook.ts:26-40 | guards are checked in the order handler, worker, payload, headers, before the handler's check; the check's error propagates unchanged |
| Hook.HookPlanBatch | src/job/hook.ts:40-50 | a batch is produced iff every guard passes and the check returns a repository; it holds just that repository, is a Hook batch, and is named by it |
| Hook.HookRepeatIsNoOp | src/job/hook.ts:46-51 | a second webhook for a repository with the same id changes nothing while the first is queued or in flight |
| Hook.HookJob | src/job/hook.ts:14-52 | errors are thrown as planned with no change; otherwise the webhook class gets at most the one planned batch through addHookJob; the scheduled class is unchanged |
| Handlers.Handler.constructor | src/types/handler.ts:65-73 | the config is kept as given and no event is allowed |
| Handlers.Handler.SetAllowedEvents | src/types/handler.ts:88-99 | the allow-list is replaced, and checkEvent then accepts exactly the given events |
| Selection.ToRepository | src/handler/github/index.ts:61-69 | path, url, branch and topics are copied; the id string parses back to the numeric id and holds no comma |
| Selection.ToRepositoryIdInjective | src/handler/github/index.ts:63 | projects with different numeric ids get different string ids |
| Selection.FindIndex | src/handler/github/index.ts:111-113 | the first index with that path, or -1 exactly when no element has it |
| Selection.KeepFirstSound | src/handler/github/index.ts:108-115 | the filter keeps only repositories at the first index of their path |
| Selection.KeepFirstComplete | src/handler/github/index.ts:108-115 | the filter keeps every repository at the first index of its path |
| Selection.KeepFirstUnique | src/handler/github/index.ts:108-115 | no two kept repositories share a path |
| Selection.DedupByPathProperties | src/handler/github/index.ts:108-115 | paths are unique, each kept repository is the first with its path, and every input path survives |
| Selection.DedupKeepsEarliest | src/handler/github/index.ts:80-115 | the first passing repository with a given path survives the filter and the de-duplication |
| Selection.DedupOnlyEarliest | src/handler/github/index.ts:80-115 | every repository that survives the filter and the de-duplication is the first passing one with its path |
| Selection.SelectEarliest | src/handler/github/index.ts:80-119 | filter, de-duplication and sort return exactly the first passing repository of each path |
| Selection.SelectSoundComplete | src/handler/gitlab/index.ts:68-95 | after de-duplication and sort by any key, every result was fetched and is wanted, and every wanted path survives |
| Selection.DedupUnique | src/handler/gitlab/index.ts:86-88 | a list without repeated paths is left unchanged |
| Selection.PermutationKeepsUniquePaths | src/handler/github/index.ts:117-119 | reordering a list with unique paths keeps them unique |
| GitHub.NewGitHubHandler | src/handler/github/index.ts:22-33 | a fresh handler with the given config that allows exactly push, pull_request and issues |
| GitHub.FirstStop | src/handler/github/index.ts:55-77 | the first page at or after the start that fails or comes back empty; all pages before it are non-empty |
| GitHub.PaginateCollects | src/handler/github/index.ts:49-77 | pagination fails with "Could not fetch repositories: " and the error when the first stopping page fails; otherwise it yields every page before it, in order |
| GitHub.CollectedSnoc | src/handler/github/index.ts:55-77 | one more non-empty page appends its repositories at the end |
| GitHub.PushAll | src/handler/github/index.ts:61-69 | the page's items are appended, in order, to the collected list |
| GitHub.FilteredWanted | src/handler/github/index.ts:80-105 | a repository survives the filters iff it was fetched and passes the orgs, users, topics and allow-list tests |
| GitHub.FilteredIsFilter | src/handler/github/index.ts:80-105 | the orgs, users, topics and allow-list filters in a row equal one filter by the combined test, so the fetched order is kept |
| GitHub.SelectSound | src/handler/github/index.ts:80-119 | every returned repository was fetched and is wanted |
| GitHub.SelectComplete | src/handler/github/index.ts:80-119 | every wanted fetched repository's path is in the result |
| GitHub.SelectKeepsFirstFetched | src/handler/github/index.ts:80-119 | a repository is returned iff it is wanted and no earlier fetched wanted repository has its path |
| GitHub.SelectOrdered | src/handler/github/index.ts:108-119 | the result is a permutation of the de-duplicated filtered list, sorted by path, with unique paths |
| GitHub.Fetch | src/handler/github/index.ts:41-120 | the paging loop's result is the pagination error, or the selection applied to every repository of the pages before the first empty one |
| GitHub.CheckEventGate | src/handler/github/index.ts:131-135 | "Event not allowed" is thrown exactly when the header's event, or "not_found" when absent, is not allowed |
| GitHub.CheckAccepts | src/handler/github/index.ts:129-188 | with the event allowed: a payload failing the owner, topic or allow-list screen resolves null; past the screens a failed lookup throws "Could not fetch repository: " and its message; otherwise it returns the looked-up repository (id, path, url, topics), with the payload's default branch when that is non-empty; a repository comes back iff all of these pass |
| GitHub.CheckIgnoresOrgsAlone | src/handler/github/index.ts:147-149 | with users unset the ownership test never rejects, whatever orgs holds |
| GitLab.NewGitLabHandler | src/handler/gitlab/index.ts:23-34 | a fresh handler with the given config that allows exactly push, merge_request and issue |
| GitLab.ProjectToRepository | src/handler/gitlab/index.ts:55-61 | path, url (web_url) and branch are copied, missing topics become [], and the id string parses back to the project id |
| GitLab.FilteredWanted | src/handler/gitlab/index.ts:68-83 | a repository survives the filters iff it was fetched, its owner is in orgs or users when either is non-empty, and it is on a non-empty allow-list |
| GitLab.FilteredIsFilter | src/handler/gitlab/index.ts:68-83 | the owner and allow-list filters in a row equal one filter by the combined test, so the listed order is kept |
| GitLab.SelectSound | src/handler/gitlab/index.ts:68-95 | every returned repository was fetched and is wanted |
| GitLab.SelectComplete | src/handler/gitlab/index.ts:68-95 | every wanted fetched repository's path is in the result |
| GitLab.SelectKeepsFirstFetched | src/handler/gitlab/index.ts:68-95 | a project is returned iff it is wanted and no earlier listed wanted project has its path |
| GitLab.SelectOrdered | src/handler/gitlab/index.ts:85-93 | the result is a permutation of the de-duplicated filtered list, sorted by id, with unique paths |
| GitLab.Fetch | src/handler/gitlab/index.ts:42-96 | one listing with the configured topics joined by ","; a rejection gives "Failed to fetch repositories: " and the error, otherwise the selection of every project |
| GitLab.CheckDecision | src/handler/gitlab/index.ts:105-166 | it throws exactly for a disallowed object_kind; otherwise it returns that event, with a repository iff the owner, allow-list, lookup and topic tests pass; the repository is the found project |
| GitLab.CheckAgreesWithFetch | src/handler/gitlab/index.ts:126-163 | for a project at the payload's path, the check keeps it exactly when the listing's filters keep it and it carries every configured topic |
| GitLab.MergeRequestPassesGate | src/handler/gitlab/index.ts:173-175 | a handler allowing exactly push, merge_request and issue never refuses a payload that isMergeRequest accepts, and the check reports that event back |
| GitLab.ApprovePreconditions | src/handler/gitlab/index.ts:214-272 | it fails unless the marker is in the description, an approve token is set, the current user is the author and the fetched merge request is open; past those it returns without approving iff no approvals are needed, and approves iff the approval call succeeds |
| GitLab.AuthorReadLeniently | src/handler/gitlab/index.ts:235 | an author field "42 (bot)" is treated exactly as "42" |
| Password.VerifierKey | src/router/middleware/password.ts:16-18 | the verifier's key is never empty and is the secret whenever the secret is set |
| Password.CheckApiSecretDecision | src/router/middleware/password.ts:23-34 | an empty secret lets every request through; otherwise a request passes iff its header equals the secret, or both are absent; passing calls next() once, failing answers 401 and never calls it |
| Password.CheckWebhookSecretDecision | src/router/middleware/password.ts:39-101 | a request passes iff the secret is empty or every present credential checks out; passing calls next() once, failing answers 401 and never calls it |
| Password.NoCredentialsPass | src/router/middleware/password.ts:53-74 | with a secret set, a request carrying neither credential header passes |
| Password.BadSignatureRefused | src/router/middleware/password.ts:56-74 | a failing signature is refused even when the GitLab token matches |
| Strings.JoinSplit | src/handler/github/index.ts:144 | split gives at least one part, no part holds the separator, and joining the parts with the separator gives back the string |
| Strings.SplitJoin | src/types/batch.ts:69 | splitting a join of separator-free parts gives back the parts |
| Strings.JoinInjective | src/types/batch.ts:69 | joins of separator-free, non-empty lists are equal only for equal lists |
| Strings.LowerIdempotent | src/handler/github/index.ts:82 | lower-casing twice is lower-casing once, and the result holds no upper-case ASCII letter |
| Strings.LowerAppend | src/handler/github/index.ts:82 | lower-casing distributes over concatenation |
| Strings.LowerOfLower | src/handler/gitlab/index.ts:130 | a string with no upper-case ASCII letter is its own lower-case form |
| Strings.LowerFirstPart | src/handler/gitlab/index.ts:126-130 | lower-casing then taking the owner equals taking the owner then lower-casing |
| Strings.LeadingDigits | src/handler/gitlab/index.ts:235 | the longest all-digit prefix of the string |
| Strings.ParseIntOfNatToString | src/handler/gitlab/index.ts:235 | parseInt of a number's decimal string gives the number back |
| Strings.Includes | src/handler/gitlab/index.ts:216 | true iff the substring occurs at some position |
| Seqs.Filter | src/handler/github/index.ts:80-105 | an element is in the result iff it is in the input and satisfies the predicate, and each satisfying element is kept as many times as it occurs |
| Seqs.FilterAppend | src/handler/github/index.ts:80-105 | filtering a concatenation filters each part in turn, so kept elements stay in input order |
| Seqs.FilterFilter | src/handler/github/index.ts:80-105 | two filters in a row keep exactly what passes both |
| Seqs.FilterKeepsEarliest | src/handler/github/index.ts:80-115 | a passing element with no passing predecessor of the same key comes before every other element with that key in the filtered list |
| Seqs.SortBy | src/handler/github/index.ts:117-119 | sorting is a permutation of its input |
| Seqs.SortBySorted | src/handler/github/index.ts:117-119 | under a total preorder the sorted list is ordered by the key |
| Seqs.InsertSorted | src/handler/github/index.ts:117-119 | inserting into an ordered list keeps it ordered |

## Left out

- I/O is not modelled. This covers the forge APIs (listing, lookup, current user, merge-request show and approve), the runner backends (Docker and Kubernetes), SHA-1 and the HMAC signature check. Each is a function parameter whose answers the model takes as given.
- Asynchrony is not modelled. Each `await` is an atomic step, and no enqueue interleaves with a tick.
- `Worker.CheckCache`: the cache key order of the in-memory cache library is not specified, so the walk picks any key. When a probe rejects, the contract says only that the cache lies between the reconciled one and the old one.
- The runner's `checkJob` is declared with an id but called with the batch. The model passes the batch, as the call site does.
- `src/index.ts` is not part of this model. Neither are the HTTP router, features middleware, swagger, logger, environment parsing, payload type files or the runner implementations. Configuration reaches the model as `HandlerConfig` and as parameters.
- `HandlerConfig` uses the field names `orgs` and `users`, as the handlers read them. The configuration type declares `organization` and `user`. The model follows the code that reads the fields.
- `Handlers.Handler.GetConfig` has no contract of its own. `config` is a constant field, so the function is the field.
- GitLab's `getMergeRequests` is not modelled. It is one forge call whose result is only mapped field by field.
- The hook producer is modelled with a check that returns a repository or none. GitLab's `check` returns `{repo, event}`, and `hook` tests that object against `null`. The two are not reconciled here, and `GitLab.Check` is modelled with its own shape.
- For a disallowed event, GitLab's `check` calls a method that does not exist (`getAllowedEvents`). This throws a TypeError instead of "Event not allowed: …". The model returns that TypeError's message (`GitLab.DisallowedEventError`).
- `Seqs.SortBy`: `localeCompare` is an abstract comparison `leq`. Ordering is proved for any total preorder. The stable insertion sort stands in for the engine's sort, which is also stable. GitLab's in-place sort is modelled on values.
- `Strings.Lower`: lower-casing is ASCII only. `toLowerCase` and `toLocaleLowerCase` on non-ASCII letters are not modelled.
- `Strings.ParseInt`: only the leading decimal digits are read. Leading whitespace, a sign and radix prefixes are not modelled, and a string without leading digits gives none (NaN).
- `Cron.CronJob` requires a positive `batch_size` when there is something to slice. With zero or a negative size the loop in the code does not end.
- Non-integer or NaN `maxJobs` and `batch_size` values are not modelled.
- `GitLab.ApproveMergeRequest`: `approvals_before_merge` is `None` for `null`. An absent (`undefined`) field, which the code treats as needing approval, is not distinguished.
- `Password.CheckWebhookSecret`: header values that are arrays are not modelled. A header is truthy when present and non-empty.
- `GitHub.Fetch`: pages are requested from page 0, as written. Whether the API serves page 0 and page 1 alike is outside the model. `stop` is a ghost page that fails or is empty, so the paging loop ends.
- Logging (`console.*`) is not modelled.
