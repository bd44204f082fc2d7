# Verified model of the correlation, exclusion and tenancy core

A Dafny model of the parts of a security-operations backend whose correctness is global rather than
local to one function, and proofs about them. One module per file:

- `Clusters`, `ClusterRank`, `ClusterStore`, `ClusterRuns`: alert correlation. Incidents of one tenant
  that share strong entities are grouped by an incremental union over two database tables.
  `ClusterStore` is the statements under the lock, over member rows with the schema's unique
  constraints, foreign key and cascade. `ClusterRuns` is any number of workers that read siblings
  without a lock, take the advisory lock of their tenant key, write, and commit or abort. The main
  result is `ClustersAreComponents`.
- `EntityStore`: the race-safe upsert over two unique indexes, and the queries that pick siblings.
- `Text`, `Urls`, `Cidr`, `ExclusionFilter`, `AutoTune`: exclusion matching with type buckets against
  its plain definition, the counter machine that learns rules from verdicts, and the round trip between
  the two.
- `ConfigCache`, `PullIngest`: two concurrency protocols, as state machines over their steps.
- `TenantScope`, `Slugs`: who can see what on a parent graph that may be cyclic, and slug allocation in
  its two implementations.
- `ToolLoop`, `Sanitize`, `KeysetScan`, `Stages`, `Sums`, `Trends`: the tool-calling conversation, the
  runaway-text collapser, the two keyset scans, the event-to-stage fold, and the top-N rollup.

Code that updates rows, maps or counters step by step is a method or a class here, proved against a
function of its inputs or of the old state; the lemmas are about those functions. `Wrappers` holds the
option type.

## Where code and documentation differ

The model follows the code. Each difference is stated by the lemmas named with it.

- `auto_tune.py` says that the true-positive guard retires an existing suggestion (lines 10-11 and
  127-128); the code only skips it (`AutoTune.GuardedRunKeepsRow`, and `PromotableSurvivesTp` for a
  run), and it compares raw texts, so the record of a URL or an e-mail address is rarely recognised:
  `AutoTune.GuardIsRaw` says exactly when.
- The docstring of `_confidence` says that a single rule cannot reach the maximum; it does, from six
  incidents on: `AutoTune.OneRuleSaturates`, `OneRuleRunCounts`.
- A learned URL or e-mail rule is not honoured when white space is left at an end of the host:
  `AutoTune.LearnThenApply` gives the exact condition (for ASCII letters), `AutoTune.SpacedUrlIsNotHonoured`
  an input.
- A replayed verdict hook is not always without effect. `AutoTune.ReplayChangesNothingIff` gives the
  exact condition, with everything the hook reads free to change in between; `LaterReplayCounts` (an
  approval in between) and `WithdrawnTpReplayCounts` (a true positive withdrawn in between) are runs.
- `invalidate_cache` promises that the next request reads the database again. That holds exactly when
  the clock has reached the TTL and no fetch in flight has its row already:
  `ConfigCache.InvalidationWorksIff`, with a run for each failing case (`YoungClockHidesTheRow`,
  `InvalidationDuringFetchIsLost`).
- The scope header is documented to narrow; for a client tenant that has children it widens:
  `TenantScope.OverridesNarrowIff` and `ClientWithChildWidens`.
- The batch backfill also runs over customers that have a tenant, and spends a slug on each
  (`Slugs.EveryNameSpendsASlug`); `Slugs.BatchAgreesIff` says exactly when its result still is that of
  the single calls, `ExistingTenantBurnsSlug` gives a table where it is not.
- A source named "date" overwrites the date of its output row, and a top source named "other" makes
  "other" occur twice in `sources`: `Trends.DatesSurviveIff` and `KeysRepeatIff` say on which input
  rows, `CollisionsHappen` gives some. The conservation results therefore count over the distinct keys.

## Assumptions

- Clusters: the tenant and creation time of an incident never change, incidents are not purged, and no
  member insert fails other than by a conflict. Two tenants may share a lock key. Under the lock a
  worker's statements may see any consistent content that agrees with the committed rows of its own
  tenant; generated cluster ids are new.
- Cache: the clock starts at the TTL or later; tasks interleave at awaits only.
- Ingest: no claim disappears while its holder is between claim and commit
  (`PullIngest.DuplicateNeedsOwnExpiry` and `EarlyExpiryDuplicates` show which expiries matter). A
  claim key joins provider and external id with a colon; it stands for one alert because no provider
  with an adapter has a colon in its name (`PullIngest.PulledAlertsNeverCollide`; `KeysCollideIff` is
  the general condition).
- Scans: the table does not change during the scan.
- Filter: parsing of addresses and networks by the `ipaddress` library is a parameter; exclusions and
  indicators are strings.

## Model

| member | source | states |
|---|---|---|
| Clusters.JoinedKeepsPartition | backend/isoc_api/adapters/cluster_store.py:197-227 | Adding one star of incident-sibling edges and joining every touched cluster keeps membership equal to the connected components of all edges |
| Clusters.PartitionIsUnique | backend/isoc_api/adapters/cluster_store.py:167-231 | The edge set alone determines who is clustered and who is clustered with whom, whatever ids the clusters carry |
| Clusters.LabelsAgreeAlongPath | backend/isoc_api/adapters/cluster_store.py:221-227 | Labels that agree along every edge agree along every path |
| Clusters.JoinedIsConnected | backend/isoc_api/adapters/cluster_store.py:221-227 | Two incidents in one cluster after a call are joined by a path of old edges and the new star |
| ClusterRank.RankIsStrictTotalOrder | backend/isoc_api/adapters/cluster_store.py:276-279 | The merge rank is irreflexive, total and transitive, missing timestamps included |
| ClusterRank.WinnerIsOldestSeed | backend/isoc_api/adapters/cluster_store.py:265-281 | The winner of a merge has a seed if any candidate has, the oldest one, and the smallest id among equals |
| ClusterRank.WinnerSeedIsOldest | backend/isoc_api/adapters/cluster_store.py:265-281 | The seed of the merge winner is already a minimal-`created_at` incident of all merged clusters together |
| ClusterRank.CorrelatedKeepsTenants | backend/isoc_api/adapters/cluster_store.py:241-247 | After a call every member's tenant is its cluster's tenant |
| ClusterRank.CorrelatedKeepsConsistent | backend/isoc_api/adapters/cluster_store.py:332-357 | After a call every cluster of the whole store has an exact `member_count`, at least two members, a seed of minimal `created_at`, and a title that is that of one of its members, cut, if it has any |
| ClusterRank.ClipIsPrefix | backend/isoc_api/adapters/cluster_store.py:354-355 | A stored title is a prefix of the incident's, of at most 512 characters, and whole when it fits |
| ClusterRank.TitleAfter | backend/isoc_api/adapters/cluster_store.py:351-355 | After a call the title is that of the seed, cut at 512 characters; the old one stays when the seed has none, and a new cluster then has none or that of an oldest member |
| ClusterRank.CorrelatedKeepsPartition | backend/isoc_api/adapters/cluster_store.py:197-230 | A call keeps the clusters equal to the connected components, now with its own star of edges |
| ClusterStore.IndexedMeansOneRowEach | backend/isoc_api/db/models.py:948-952 | The unique index on the incident means one member row per incident |
| ClusterStore.ClusterTables.constructor | backend/isoc_api/db/models.py:881-952 | The tables start empty and valid |
| ClusterStore.ClusterTables.InsertMember | backend/isoc_api/adapters/cluster_store.py:133-157 | The insert adds the membership exactly when the incident has none, and changes nothing otherwise |
| ClusterStore.ClusterTables.OldestIncident | backend/isoc_api/adapters/cluster_store.py:320-329 | The result is one of the ids and none of them is older |
| ClusterStore.ClusterTables.CreateCluster | backend/isoc_api/adapters/cluster_store.py:234-250 | One new cluster row, with the caller's tenant, an oldest member as seed, the title of an oldest member, and the size of the member set; no other row changes |
| ClusterStore.ClusterTables.PickWinner | backend/isoc_api/adapters/cluster_store.py:259-281 | The winner is among the candidates and ranks below every other one |
| ClusterStore.ClusterTables.ReparentOrDrop | backend/isoc_api/adapters/cluster_store.py:299-312 | The row moves to the winner, or is deleted exactly when another row already holds its incident |
| ClusterStore.ClusterTables.ReparentCluster | backend/isoc_api/adapters/cluster_store.py:287-312 | Every row of the loser now names the winner, no other row changes, and the delete fallback is taken zero times |
| ClusterStore.ClusterTables.DeleteClusters | backend/isoc_api/adapters/cluster_store.py:313-316 | Removes the clusters and, by the cascade, exactly the rows that still name them, and counts those |
| ClusterStore.ClusterTables.MergeClusters | backend/isoc_api/adapters/cluster_store.py:253-317 | Nothing is dropped by the fallback or the cascade, the row set is unchanged, losers are gone, and the winner holds exactly the union |
| ClusterStore.ClusterTables.ReconcileCluster | backend/isoc_api/adapters/cluster_store.py:332-357 | Count, seed and title of the one cluster follow its members; every other cluster is untouched; the count is also returned for a missing cluster |
| ClusterStore.ClusterTables.InsertMembers | backend/isoc_api/adapters/cluster_store.py:224-227 | All ids without a membership get this one; existing memberships stay |
| ClusterStore.ClusterTables.TargetCluster | backend/isoc_api/adapters/cluster_store.py:197-222 | No, one or several existing clusters give a new, the same or the merged cluster, with memberships relabelled accordingly |
| ClusterStore.ClusterTables.CorrelateIncident | backend/isoc_api/adapters/cluster_store.py:167-231 | The whole critical section has the effect `Correlated` on both tables and returns the final size of the cluster; without siblings nothing changes |
| ClusterRuns.CommitIsOneCorrelation | backend/isoc_api/adapters/cluster_store.py:192-231 | What a commit publishes is one correlation of the committed content at commit time, although siblings were read before the lock and other tenants committed in between |
| ClusterRuns.CorrelatedLeavesOthers | backend/isoc_api/adapters/cluster_store.py:94-109 | A call changes no cluster row and no membership of another tenant |
| ClusterRuns.LockFreezesTenant | backend/isoc_api/adapters/cluster_store.py:192-195 | While a worker holds its tenant's lock, no step of another worker changes that tenant's committed rows |
| ClusterRuns.StepKeepsInv | backend/isoc_api/adapters/cluster_store.py:167-231 | Every step of every worker (read, lock, work, commit, abort) keeps the system invariant |
| ClusterRuns.RunKeepsInv | backend/isoc_api/adapters/cluster_store.py:167-231 | The invariant holds in every state of every interleaving |
| ClusterRuns.ClustersAreComponents | backend/isoc_api/adapters/cluster_store.py:167-231 | In every state of every interleaving the clusters are exactly the connected components of the recorded edges, tenants never mix, and counts, seeds and titles are right |
| ClusterRuns.CoMembersStayTogether | backend/isoc_api/adapters/cluster_store.py:197-231 | Incidents that once share a cluster share one in every later state |
| ClusterRuns.OrderDoesNotMatter | backend/isoc_api/adapters/cluster_store.py:167-231 | Two runs that committed the same calls, in any order and interleaving, end with the same partition |
| EntityStore.IndexesMeanOneRowPerKey | backend/isoc_api/db/models.py:832-845 | The composite constraint and the partial index together mean exactly one row per (customer, type, key), with NULL as a customer of its own |
| EntityStore.NeitherIndexAlone | backend/isoc_api/db/models.py:832-845 | Each index alone admits a table with two rows of one key |
| EntityStore.EntityTables.UpsertEntity | backend/isoc_api/adapters/entity_store.py:26-56 | The one row of the key is refreshed with `first_seen` kept, or a row is added; its id is the only match afterwards; both indexes keep holding |
| EntityStore.EntityTables.LinkIncidentEntity | backend/isoc_api/adapters/entity_store.py:59-68 | Adds exactly this link, idempotently |
| EntityStore.EntityTables.Conflicting | backend/isoc_api/adapters/entity_store.py:47-54 | The conflict target chosen by the customer finds exactly the rows of the same key, at most one |
| EntityStore.EntityTables.StrongEntityIds | backend/isoc_api/adapters/cluster_store.py:41-82 | Exactly the linked strong entities of acceptable fan-out, each once although an entity may be linked under several roles |
| EntityStore.StrongKinds | backend/isoc_api/pipeline/correlation.py:16-33 | Files, users and devices are strong; of the observables exactly user name, e-mail, URL, hash and CVE; nothing else |
| EntityStore.FanoutIff | backend/isoc_api/adapters/cluster_store.py:67-80 | The fan-out reaches a number exactly when that many live incidents of the tenant are linked to the entity, under whatever roles |
| EntityStore.SiblingsIff | backend/isoc_api/adapters/cluster_store.py:98-114 | An incident is a sibling if and only if it is another live one of the tenant, in the window, linked under whatever roles to at least the required number of the entities |
| EntityStore.OneSharedEntityIsEnough | backend/isoc_api/adapters/cluster_store.py:41-114 | Two live incidents of one tenant linked to one strong entity of acceptable fan-out are siblings when one shared entity is required |
| EntityStore.RolesDoNotCount | backend/isoc_api/adapters/cluster_store.py:95-111 | Linking an entity under one more role never changes the siblings |
| ClusterRuns.SiblingReadIsEnabled | backend/isoc_api/adapters/cluster_store.py:85-114 | Whatever siblings the query finds, over entities shared by all tenants too, they form a call within one tenant that a worker can go on with |
| Cidr.ContainsIsPrefixMatch | backend/isoc_api/exclusions/filter.py:87-92 | Masked comparison is agreement on the leading prefix bits within one address family (section 3.1 of RFC 4632, section 2.3 of RFC 4291) |
| Urls.UrlHostOfParts | backend/isoc_api/exclusions/filter.py:129-139 | The host found in a URL put together from scheme, user part, host, port and whatever follows, each optional part present or not, is that host |
| Urls.MailHostOfParts | backend/isoc_api/exclusions/filter.py:105 | The domain found in an e-mail address is what follows its last at sign |
| Text.LowerIsAscii | backend/isoc_api/exclusions/filter.py:81 | Lower-casing maps exactly the capital ASCII letters, each to its small letter |
| ExclusionFilter.UrlRuleMatchesIff | backend/isoc_api/exclusions/filter.py:95-114 | A URL with a given host is matched exactly by the domain rules for that host and for the domains above it, in any letter case |
| ExclusionFilter.HostOfMail | backend/isoc_api/exclusions/filter.py:104-105 | The host a rule is compared with for an e-mail address: what follows the at sign, in lower case and without trailing dots |
| ExclusionFilter.DomainRuleMatchesIff | backend/isoc_api/exclusions/filter.py:108-114 | A domain rule matches its own host and every host below it, and no other |
| ExclusionFilter.AddressRuleMatchesIff | backend/isoc_api/exclusions/filter.py:84-94 | An address is matched exactly by the rule with the same text and by the networks whose leading bits it shares |
| ExclusionFilter.OtherRuleMatchesIff | backend/isoc_api/exclusions/filter.py:115-116 | A hash is matched exactly by the hash rule with the same text in any letter case; indicators of other kinds never are |
| ExclusionFilter.ForeignRuleDoesNotMatter | backend/isoc_api/exclusions/filter.py:41-43 | A disabled rule or one of another customer never changes what is kept |
| ExclusionFilter.OwnRuleExcludes | backend/isoc_api/exclusions/filter.py:41-43 | An enabled rule that is global or of the customer excludes whatever it matches |
| ExclusionFilter.ReasonQuotes | backend/isoc_api/exclusions/filter.py:118-122 | A reason quotes the value of its rule and ends with the notes if there are any |
| ExclusionFilter.BuildBuckets | backend/isoc_api/exclusions/filter.py:47-70 | Exact buckets hold the last rule of each key, the two lists hold the CIDR and suffix rules in order; blank and unparsable rules are skipped |
| ExclusionFilter.LookUp | backend/isoc_api/exclusions/filter.py:75-116 | The lookup returns the deciding rule, and nothing exactly when no rule names or covers the indicator |
| ExclusionFilter.DecidesIsUnique | backend/isoc_api/exclusions/filter.py:84-116 | The deciding rule (last exact one, else first covering one) is unique and really matches |
| ExclusionFilter.MatchesSplit | backend/isoc_api/exclusions/filter.py:84-116 | The plain rule-by-rule definition is naming the indicator or covering it |
| ExclusionFilter.ActiveOfIsFilter | backend/isoc_api/exclusions/filter.py:41-43 | The rules considered are exactly the enabled ones that are global or of this customer |
| ExclusionFilter.Apply | backend/isoc_api/exclusions/filter.py:22-126 | The bucketed matcher excludes exactly what the plain definition excludes, in order, and cites the deciding rule for each exclusion |
| ExclusionFilter.SplitConserves | backend/isoc_api/exclusions/filter.py:72-126 | Kept and excluded indicators together are the input, as multisets |
| ExclusionFilter.SplitIsPure | backend/isoc_api/exclusions/filter.py:118-124 | No kept indicator has a matching active rule, every excluded one has |
| AutoTune.LearnThenApply | backend/isoc_api/exclusions/auto_tune.py:48-69 | A rule learned from an indicator and approved for the same customer matches that indicator if and only if `Honoured` holds: it is not blank and, for URLs and e-mail addresses, the host has no white space at its ends |
| AutoTune.LearnedFromUrl | backend/isoc_api/exclusions/auto_tune.py:48-66 | From a URL put together from its parts the host is learned, in lower case |
| AutoTune.LearnedFromMail | backend/isoc_api/exclusions/auto_tune.py:66-68 | From an e-mail address what follows the last at sign is learned, in lower case and without trailing dots |
| AutoTune.LearnedFromOthers | backend/isoc_api/exclusions/auto_tune.py:36-69 | From addresses, domains and hashes the stripped text is learned under its rule type, hashes in lower case; nothing from other kinds |
| AutoTune.ApprovedRuleStaysScoped | backend/isoc_api/routes/exclusions.py:287-294 | A rule approved for one customer is active for that customer only |
| AutoTune.LearnedRuleExcludes | backend/isoc_api/exclusions/filter.py:80-116 | Once the learned rule is among the rules, `apply` never keeps an honoured indicator |
| AutoTune.NoWhitespaceIsHonoured | backend/isoc_api/exclusions/auto_tune.py:57-69 | Every eligible indicator without white space is honoured, for all five kinds |
| AutoTune.SpacedUrlIsNotHonoured | backend/isoc_api/exclusions/auto_tune.py:48-66 | A concrete URL whose learned host can be approved, and whose approved rule misses it |
| AutoTune.SuggestionTable.RecordFpVerdict | backend/isoc_api/exclusions/auto_tune.py:94-178 | The hook touches exactly the eligible, not malicious, not TP-guarded keys of the incident, each once, and leaves every other row alone |
| AutoTune.HookCountsIff | backend/isoc_api/exclusions/auto_tune.py:101-178 | One hook counts for a key if and only if the verdict is FP or Benign, a record maps to the key, its value is neither malicious nor the text of a true positive, and its row is missing, or neither dismissed nor already counted |
| AutoTune.CountingIs | backend/isoc_api/exclusions/auto_tune.py:148-178 | Counting adds one false positive, this incident and, if new, this rule, and sets rule, time and confidence; the status stays |
| AutoTune.MaliciousRunKeepsRow | backend/isoc_api/exclusions/auto_tune.py:110-123 | Through every run of hooks in which a value is marked malicious its suggestion stays as it is, and none is made |
| AutoTune.SuggestionTable.EligibleOf | backend/isoc_api/exclusions/auto_tune.py:115-124 | Exactly the keys of this customer that some record maps to and that are not marked malicious |
| AutoTune.EveryRunKeepsRows | backend/isoc_api/exclusions/auto_tune.py:158-178 | Over every run of hooks, approvals and dismissals: `fp_count` is the number of distinct incidents, rules are distinct and no more than that, and confidence is min(100, 15 fp + 15 rules) |
| AutoTune.CountedOnce | backend/isoc_api/exclusions/auto_tune.py:164-167 | An incident a suggestion has counted never changes it again |
| AutoTune.ReplayChangesNothingIff | backend/isoc_api/exclusions/auto_tune.py:94-178 | Replaying a hook for the same incident after any run of actions, with whatever records, enrichment and true positives there are by then, changes nothing if and only if (1) every key both hooks work on, if its row was dismissed before the first without having counted the incident, was not approved since or has counted it since, and (2) every key only the replay works on has, by the log of actions, a row that is dismissed or has counted the incident |
| AutoTune.HookIsIdleIff | backend/isoc_api/exclusions/auto_tune.py:115-178 | One hook changes nothing if and only if every key it works on has a row that is dismissed or has counted the incident |
| AutoTune.ReplayChangesNothing | backend/isoc_api/exclusions/auto_tune.py:94-178 | In particular, a replay at any later time that works on no new key changes nothing as long as none of its keys is approved in between |
| AutoTune.WithdrawnTpReplayCounts | backend/isoc_api/exclusions/auto_tune.py:127-137 | With a new key it can change the table without any approval: the true positive that guarded the first hook is withdrawn, and the replay counts |
| AutoTune.LaterReplayCounts | backend/isoc_api/exclusions/auto_tune.py:160-167 | The exception happens: a row dismissed before the hook and approved after it is changed by the replay |
| AutoTune.SeenGrows | backend/isoc_api/exclusions/auto_tune.py:164-168 | Through every run a row goes on counting the incidents it has counted |
| AutoTune.DismissedIsFrozen | backend/isoc_api/exclusions/auto_tune.py:160-162 | A dismissed suggestion stays exactly as it was through every run that does not approve it |
| AutoTune.PromotableIsCorroborated | backend/isoc_api/exclusions/auto_tune.py:190-196 | Whatever surfaces for review rests on at least three different incidents and two different rules |
| AutoTune.OneRuleSaturates | backend/isoc_api/exclusions/auto_tune.py:89-91 | In every run, a row with one rule has confidence 100 exactly when it counted at least six different incidents |
| AutoTune.OneRuleRunCounts | backend/isoc_api/exclusions/auto_tune.py:89-91 | Such runs exist for every number of incidents, so six under one rule do reach 100 |
| AutoTune.GuardedRunKeepsRow | backend/isoc_api/exclusions/auto_tune.py:127-137 | The TP guard retires nothing: through every run of guarded hooks an existing suggestion stays exactly as it is, and promotable if it was |
| AutoTune.PromotableSurvivesTp | backend/isoc_api/exclusions/auto_tune.py:127-137 | A concrete run in which a suggestion is still offered for review after its value was seen in a true positive |
| AutoTune.GuardIsRaw | backend/isoc_api/exclusions/auto_tune.py:127-137 | The TP guard recognises an indicator's own TP record exactly when: never for e-mail, for URLs only when the URL is its bare host, otherwise when the record has no white space at its ends |
| ConfigCache.StepKeepsInv | backend/isoc_api/llm/config_store.py:100-121 | Every step (hit, miss, fetch, read, publish, either cancellation, save, invalidation, tick) keeps the invariant: exactly the holder of the lock fetches |
| ConfigCache.RunKeepsInv | backend/isoc_api/llm/config_store.py:88-121 | The invariant holds in every state of every interleaving that starts with a clock of at least the TTL |
| ConfigCache.OneFetchInFlight | backend/isoc_api/llm/config_store.py:114-121 | At most one fetch is in flight in any state |
| ConfigCache.ReturnsAreRecent | backend/isoc_api/llm/config_store.py:100-121 | Whatever a call returns is the row (or the failure) of the read of one fetch of the run, the last one published, and that read is less than the TTL plus the duration of that very fetch ago |
| ConfigCache.CacheHistory | backend/isoc_api/llm/config_store.py:119-121 | Unless the cache was never filled or is invalidated (timestamp zero), its value and timestamp are a pair from the last publication of the run |
| ConfigCache.MissesShareOneFetch | backend/isoc_api/llm/config_store.py:110-121 | From a stale cache without a fetch in flight, all tasks together start at most one fetch while the clock advances less than the TTL and nobody invalidates, plus one per cancelled fetch |
| ConfigCache.InvalidationWorksIff | backend/isoc_api/llm/config_store.py:94-121 | After an invalidation every later call returns a row that was read after it (or a read that failed after it), in every continuation, if and only if the clock has reached the TTL and no fetch in flight has its row already |
| ConfigCache.YoungClockHidesTheRow | backend/isoc_api/llm/config_store.py:90-112 | The first failing case, as a run: on a clock below the TTL a configuration is saved and the cache invalidated, and the next caller is told that the table is empty |
| ConfigCache.InvalidationDuringFetchIsLost | backend/isoc_api/llm/config_store.py:94-121 | The second failing case, as a run: a save and invalidation between the read and the publication of a fetch, and almost one TTL later the old row is still returned |
| PullIngest.DedupKeyIsInjective | backend/isoc_api/pipeline/ingest_sources.py:34-36 | Alerts of providers without a colon never share a claim key |
| PullIngest.OneProviderNeverCollides | backend/isoc_api/pipeline/ingest_sources.py:34-36 | Within one provider different external ids have different claim keys |
| PullIngest.KeysCollideIff | backend/isoc_api/pipeline/ingest_sources.py:34-36 | Different alerts share a claim key if and only if one is the other with provider and external id cut at a later colon |
| PullIngest.PulledAlertsNeverCollide | backend/isoc_api/adapters/ingest/__init__.py:28-47 | Among the alerts of the four providers with an adapter, a claim key stands for one alert |
| PullIngest.StepKeepsInv | backend/isoc_api/worker.py:425-431 | Every step of any number of pollers keeps: no alert stored twice, busy pollers own their claims alone, the database answer stays right |
| PullIngest.AtMostOnce | backend/isoc_api/worker.py:460-508 | In every state of every run in which no claim disappears between its claim and its commit, at most one incident exists per (provider, external id) |
| PullIngest.StoredTwiceIff | backend/isoc_api/worker.py:478-508 | In any run, whatever expires, an alert is stored twice if and only if two commits rest on the answer that it is not known yet |
| PullIngest.DuplicateNeedsOwnExpiry | backend/isoc_api/worker.py:425-431 | An alert stored twice takes an expiry of its own claim while a poller is between claim and commit on that claim; no other expiry matters |
| PullIngest.EarlyExpiryDuplicates | backend/isoc_api/worker.py:425-431 | Such an expiry can do it: a concrete run of seven steps with two incidents |
| PullIngest.IncidentsOnlyGrow | backend/isoc_api/worker.py:478-508 | No step ever loses or reorders ingested incidents |
| PullIngest.IngestTables.CreatePullIncident | backend/isoc_api/worker.py:478-508 | Adds the incident exactly when the database does not have it |
| PullIngest.IngestTables.IngestAlerts | backend/isoc_api/worker.py:419-435 | One poll: the counter is the number of new incidents, which are eligible alerts of this provider in the order of the poll, none twice, and each eligible alert ends claimed and, if its claim was free, stored |
| TenantScope.Descendants | backend/isoc_api/auth/tenancy.py:67-82 | Terminates on any parent graph, cycles included, with exactly what is reachable from the roots |
| TenantScope.DescendantsIsAClosure | backend/isoc_api/auth/tenancy.py:67-82 | Extensive, monotone and idempotent |
| TenantScope.ResolveScope | backend/isoc_api/auth/tenancy.py:33-64 | Unrestricted exactly for admins and host members; otherwise exactly the memberships and what lies below an MSSP membership |
| TenantScope.ScopeOfMemberships | backend/isoc_api/auth/tenancy.py:35-64 | The scope in terms of the memberships: unrestricted by the admin role or a host tenant, else each membership and what an MSSP membership reaches |
| TenantScope.CurrentScope | backend/isoc_api/auth/tenancy.py:88-111 | A valid override inside the natural scope gives exactly that tenant and its descendants; every other header gives the natural scope |
| TenantScope.OverridesNarrowIff | backend/isoc_api/auth/tenancy.py:102-111 | Overrides never show more than the natural scope if and only if every child of a membership that is not MSSP is visible anyway |
| TenantScope.ClientsWithoutChildrenNarrow | backend/isoc_api/auth/tenancy.py:85-111 | In particular when no client tenant has children |
| TenantScope.ClientWithChildWidens | backend/isoc_api/auth/tenancy.py:102-111 | A concrete tenant table in which the override shows a tenant that the natural scope hides |
| Slugs.SlugifyMakesSlug | backend/isoc_api/auth/tenancy.py:149-154 | Any name gives a non-empty lower-case slug without leading, trailing or double dashes |
| Slugs.SlugifyFixesSlugs | backend/isoc_api/db/tenancy_backfill.py:27-30 | The fixed points are exactly the slugs, so normalisation is idempotent |
| Slugs.SlugOfWords | backend/isoc_api/auth/tenancy.py:149-154 | The first word in lower case, one dash for whatever separates it from the next, and the slug of the rest |
| Slugs.SlugDropsEnds | backend/isoc_api/auth/tenancy.py:152-154 | Whatever stands before the first word or behind the last is dropped |
| Slugs.SlugOfNothing | backend/isoc_api/auth/tenancy.py:154 | A name without letters and digits is "unnamed" |
| Slugs.SlugOfExample | backend/isoc_api/db/tenancy_backfill.py:27-30 | The example of the documentation |
| Slugs.DecimalIsNumber | backend/isoc_api/auth/tenancy.py:173-174 | The suffix is the counter in digits, without a leading zero |
| Slugs.DecimalIsInjective | backend/isoc_api/auth/tenancy.py:172-174 | Different counters give different suffixes |
| Slugs.AllocateSlug | backend/isoc_api/auth/tenancy.py:168-174 | The loop ends within (used slugs + 1) tries with the least free candidate |
| Slugs.TenantTable.constructor | backend/isoc_api/auth/tenancy.py:157-179 | The table starts with the given tenants |
| Slugs.TenantTable.EnsureTenantForCustomer | backend/isoc_api/auth/tenancy.py:157-179 | A blank name is refused and an existing tenant returned, both without a change; otherwise one tenant with the least free slug is added |
| Slugs.TenantTable.BackfillTenants | backend/isoc_api/db/tenancy_backfill.py:154-179 | The batch loop computes `BackfillAll`: table and counter |
| Slugs.BackfillSlugsAreDistinct | backend/isoc_api/db/tenancy_backfill.py:154-179 | For every list of customers the slugs stay pairwise distinct, existing tenants keep theirs, and new ones avoid all existing ones |
| Slugs.CreatedIsCounted | backend/isoc_api/db/tenancy_backfill.py:160-179 | The counter of the batch is the number of tenants it added |
| Slugs.BatchAgreesIff | backend/isoc_api/db/tenancy_backfill.py:154-179 | For stripped, not blank, distinct customers and any table, the batch and the one-by-one calls create the same tenants if and only if no new customer's own least free slug was spent before on a customer who had a tenant |
| Slugs.EveryNameSpendsASlug | backend/isoc_api/db/tenancy_backfill.py:161-168 | Every customer costs the batch one slug, with or without a tenant |
| Slugs.BackfillIsOneByOne | backend/isoc_api/db/tenancy_backfill.py:160-179 | In particular they agree when no customer has a tenant yet |
| Slugs.ExistingTenantBurnsSlug | backend/isoc_api/db/tenancy_backfill.py:161-179 | The other case happens: a concrete table and batch in which the two implementations choose different slugs |
| ToolLoop.AnswerCalls | backend/isoc_api/llm/client.py:406-435 | The replies are one per call, in call order, each with the outcome of its own handler run on the parsed arguments (an empty object when there are none or they do not parse), or the unknown-tool text; only a result that cannot be serialised aborts |
| ToolLoop.TalkIsWellFormed | backend/isoc_api/llm/client.py:359-435 | Every request carries system, user, then blocks of one assistant turn and exactly its replies |
| ToolLoop.AcceptedTurnIsAnswered | backend/isoc_api/llm/client.py:404-435 | In an accepted conversation every assistant turn is followed by one tool message per call id, in order, and then the next turn |
| ToolLoop.TalkGrows | backend/isoc_api/llm/client.py:405-435 | Each conversation extends every earlier one |
| ToolLoop.RequestsAreSound | backend/isoc_api/llm/client.py:371-443 | All requests sent are well-formed, only grow, and offer tools exactly within the round budget |
| ToolLoop.RequestsCarryRuns | backend/isoc_api/llm/client.py:404-435 | From one request to the next the conversation grows by exactly what the model answered and by one message per call with the outcome of its own handler run |
| ToolLoop.UsageAddsUp | backend/isoc_api/llm/client.py:363-383 | The token sums grow by what each reply reports, and by nothing for errors and answers without usage |
| ToolLoop.CompleteWithTools | backend/isoc_api/llm/client.py:306-492 | At most max_rounds + 1 requests, each exactly the conversation of its round; tokens are the sums over all replies, or the estimate when the input sum is zero; the result is that of the last reply; blocked and delegated calls send nothing |
| ToolLoop.SucceedsIff | backend/isoc_api/llm/client.py:385-492 | A call succeeds exactly when the last reply has a choice and either no tool calls or the budget is used up; then its sanitised text is returned, otherwise none |
| ToolLoop.HandleReply | backend/isoc_api/llm/client.py:385-435 | A reply ends the call with its result or extends the conversation by exactly one round |
| Sanitize.PassesCompose | backend/isoc_api/llm/client.py:81-83 | The three passes in a row act on every run separately, at once |
| Sanitize.CollapseIffRunaway | backend/isoc_api/llm/client.py:68-70 | Collapsing changes a text exactly when it has a runaway run, and leaves none |
| Sanitize.RunawayInNumbers | backend/isoc_api/llm/client.py:68-70 | A runaway run is 40 or more horizontal white-space characters, 10 or more newlines, or 60 or more times one visible character |
| Sanitize.RunBecomes | backend/isoc_api/llm/client.py:81-83 | Wherever it stands, a long run becomes one blank, two newlines or three of its character, and any other run stays |
| Sanitize.SanitizedIsClean | backend/isoc_api/llm/client.py:73-87 | Never longer, no runaway run left, right-trimmed, `changed` exactly when the input had a runaway run, otherwise only trimmed |
| Sanitize.SanitizedIsIdempotent | backend/isoc_api/llm/client.py:73-87 | Sanitising again changes nothing and flags nothing |
| Sanitize.SkeletonSurvives | backend/isoc_api/llm/client.py:79-87 | The sequence of runs survives, up to trailing white space |
| KeysetScan.AboveIsFilter | backend/scripts/backfill_entities_from_db.py:64-75 | A page query sees exactly the ids beyond the cursor, in ascending order |
| KeysetScan.CursorDropsPage | backend/scripts/backfill_entities_from_db.py:64-84 | Moving the cursor to the n-th row beyond it drops exactly those n rows |
| KeysetScan.ExpectedIs | backend/scripts/backfill_entities_from_db.py:56-75 | The expected rows are the first ones beyond the start, as many as the limit allows |
| KeysetScan.ProcessPage | backend/scripts/backfill_entities_from_db.py:79-84 | All rows of a page are processed: the cap inside the loop never strikes, because the page was clamped |
| KeysetScan.BackfillScan | backend/scripts/backfill_entities_from_db.py:47-122 | Terminates and visits every id after the start once, ascending, cut at the limit; the cursor is the last one visited; no row is fetched without being processed |
| KeysetScan.RecomputeScan | backend/scripts/recompute_entity_risk.py:34-61 | The same for the risk recomputation, from the beginning |
| KeysetScan.ResumeLosesNothing | backend/scripts/backfill_entities_from_db.py:49-84 | A limited run and a run resumed from its last id visit together exactly what one full run visits |
| Stages.KindIff | frontend/lib/stages.ts:57-62 | Which events run, complete, fail and skip a stage, by level, type suffix and step |
| Stages.StepDecides | frontend/lib/stages.ts:63 | An event with a step belongs to that step |
| Stages.OpenStageTakes | frontend/lib/stages.ts:63-87 | An event without a step belongs to the stage that ran last, as long as nothing ran or closed it since |
| Stages.NothingRanIsMisc | frontend/lib/stages.ts:63 | An event without a step and without a running event before it belongs to "misc" |
| Stages.ClosedIsMisc | frontend/lib/stages.ts:63-87 | So does one whose latest running stage was closed since |
| Stages.OwnIsByStage | frontend/lib/stages.ts:65-75 | The events of a stage are exactly those attributed to it, in the order of the stream |
| Stages.StatusIs | frontend/lib/stages.ts:77-93 | The status by the positions of the events: failing, else warning, else completed, else running, else skipped, else pending |
| Stages.DurationIs | frontend/lib/stages.ts:80-86 | The duration is that of the last closing event that has one |
| Stages.DetailsAre | frontend/lib/stages.ts:90-93 | The details of a stage are its events that neither run, close, fail nor skip it |
| Stages.ShownFields | frontend/lib/stages.ts:65-112 | Every shown stage has its key, its label, and the status, duration, time and details of its own events |
| Stages.Fold | frontend/lib/stages.ts:52-94 | The mutable map holds, for each stage that occurs, the automaton run over that stage's own events |
| Stages.DeriveStages | frontend/lib/stages.ts:52-121 | The result lists exactly the expected keys in order, each with status, duration, time and details computed from its own events only |
| Stages.WarnOnlyLeavesToError | frontend/lib/stages.ts:77-93 | Once a stage warns, only a failure changes its status |
| Stages.PresentIsExact | frontend/lib/stages.ts:63-75 | Stages occur once each, and exactly those with an event |
| Stages.EventsAreShared | frontend/lib/stages.ts:56-94 | Each event belongs to exactly one stage: the events of the stages together are the stream, as multisets |
| Stages.DetailsAreShared | frontend/lib/stages.ts:90-93 | No detail is lost or shown twice: the details of the stages together are the details of the stream, as multisets |
| Stages.ResultKeepsDetails | frontend/lib/stages.ts:96-120 | The result, with or without pending stages, shows every detail of the stream exactly once |
| Stages.DetailsKeepOrder | frontend/lib/stages.ts:90-93 | The details of each stage keep the order of the stream |
| Stages.SortIsCanonical | frontend/lib/stages.ts:114-120 | The result is in canonical order, has the same stages, and keeps the unknown ones in order of first occurrence |
| Stages.CanonicalFirst | frontend/lib/stages.ts:114-120 | Whatever precedes a canonical stage in the result is a canonical stage that precedes it in the order |
| Trends.SortedSources | backend/isoc_api/analytics/trends.py:57 | The sources in order of descending total, then name, each once |
| Trends.LexIff | backend/isoc_api/analytics/trends.py:57 | Names are ordered by the first place where they differ, or where one ends |
| Trends.OneMoreRow | backend/isoc_api/analytics/trends.py:54-64 | What one more row adds to the total of its source, to its bucket and to its cell; a missing source counts as "unknown", one outside the top as "other" |
| Trends.KeptCount | backend/isoc_api/analytics/trends.py:57 | How many sources are kept |
| Trends.ByBucket | backend/isoc_api/analytics/trends.py:61-64 | The cells of every bucket, with every source outside the top under "other" |
| Trends.SourceVolumeTrend | backend/isoc_api/analytics/trends.py:50-73 | The kept sources are the prefix of the ranking, the dates ascend, and each row holds its date and the exact counts under the output keys |
| Trends.VolumeIsConserved | backend/isoc_api/analytics/trends.py:61-72 | In every bucket the counts over the distinct output keys add up to the counts of the input |
| Trends.OutputRowConservesVolume | backend/isoc_api/analytics/trends.py:66-72 | What one output row shows over its distinct keys is the volume of its bucket |
| Trends.InTopIff | backend/isoc_api/analytics/trends.py:54-58 | A source is kept if and only if fewer than the kept number of sources go before it, by total and then name |
| Trends.DatesSurviveIff | backend/isoc_api/analytics/trends.py:50-73 | The output rows keep their dates if and only if "date" is not among the heaviest sources of the input |
| Trends.KeysRepeatIff | backend/isoc_api/analytics/trends.py:50-66 | The output keys repeat if and only if "other" is among the heaviest sources of the input and there are more sources than are kept |
| Trends.CollisionsHappen | backend/isoc_api/analytics/trends.py:50-73 | Both happen on concrete rows |
| Trends.PercentileIsLinear | backend/isoc_api/analytics/trends.py:21-24 | Between two neighbouring values the percentile is their weighted mean |
| Trends.PercentileIsMonotone | backend/isoc_api/analytics/trends.py:14-24 | On ascending values: monotone in the share, between the extremes, and equal to them at 0 and 1 |

## Left out

- ClusterStore.ClusterTables.OldestIncident: the database may break ties of `created_at` either way, so only minimality is stated.
- AutoTune.SuggestionTable.RecordFpVerdict: one hook at a time; concurrent hooks, and the duplicate rows they could create for a NULL customer, are not modelled, and the exception handler that abandons a hook halfway is left out.
- AutoTune.LearnThenApply: the condition is exact for ASCII letters; lower-casing that depends on the neighbouring characters, such as that of a final sigma, can fold a whole URL and its host alone differently and is not modelled.
- AutoTune.NoWhitespaceIsHonoured: likewise for texts whose lower-casing is that of ASCII.
- ConfigCache.StepKeepsInv: the cache is a state machine on values, because its tasks interleave inside one function.
- Trends.PercentileIsMonotone: over `real`, so floating-point rounding is not modelled.
- Member columns `shared_entity_id`, `method`, `attached_at`, and cluster status and manual edits: no step here reads them.
- Purging incidents, reassigning tenants and soft-delete races in the cluster tables: excluded by the assumptions.
- Lower-casing beyond ASCII: every other character is its own lower case; white space is the full set of `str.isspace`.
- The regular-expression engine: its three patterns are modelled as rewriting maximal runs.
- `_malicious_values` and the true-positive query: their results are inputs of the hook.
- The severity floor: a boolean of each pulled alert; vendor adapters, back-off, drift fingerprints and job queueing are outside.
- Batch import counters, time-to-resolve and verdict-mix trends, entity risk folding, scope clauses and row checks: single-branch or folded facts that would add only easy members.
- Candidate, linked and failed counters and the dry run of the scans; writes inside a scan do not affect paging.
- Timeline emissions, latency, provider names and prompt hashes of the tool loop; JSON parsing and dumping are parameters, and error replies carry the message without its JSON wrapper.
- The updates of incidents and audit rows at the end of the tenant backfill.
- SQL engine, ORM, savepoint and Redis internals, encryption, HTTP routes other than approve and dismiss, and the user interface.
