# Multicloud-k8s: a verified model

The `k8splugin` service installs charts into Kubernetes clusters, keeps versioned configurations of the instances it
installed, and checks their health. The `ncm` and `clm` services manage clusters and the network intents applied to
them. This project models the parts of these services that keep state and proves what they keep.

- `Decimal`, `KeyCodec`: numbers as text and the flat string keys of the configuration store.
- `ConfigHistory`: what the configuration operations do to a history (stored configuration, numbered log, tags), and the
  theorems over all runs. `ConfigClient`: the code on the key-value store, proved to do exactly that.
- `DocumentStore`: master documents and data documents, every operation as its database steps, crashes between them.
  `MongoStore`: the code, recording every state it passes through. `NameCache`: the name generator on top of it.
- `Ordering`: the hook and replica set sorts. `Lifecycle`: installation, deletion, recovery and crashes of an instance as
  a machine. `InstanceClient`: installation, deletion, recovery and the hook loop as code, proved to be
  runs of that machine; the creation and compensation of resources.
- `Healthcheck`, `ConfigWorker`: the two channel protocols, one action for each step of a goroutine.
- `NetworkIntents`: clusters, intents, contexts and the action log. `Collection`: the shared documents under nested keys.
  `ClusterClient`: the code on these documents, which spell out the clusters.
- `Rollout`: the rollout arithmetic with its 32-bit conversions.

Code that changes state is a class whose methods follow the code; each method is tied to a function, and the theorems
are about the functions. What a call to the outside answers is a parameter: which versions the cluster accepts (`ok`,
`applied`), what it says to each hook (`Outcome`), which resources it refuses or does not let go, in which order the
database or a Go map lists things, which names the random generator draws. Fresh identities (document ids, context ids)
are assumed to be new. `models` in `ConfigClient` is the answer of `resolveModelFromInstance`.

## What is false of the code

Each of these is a lemma, next to the exact condition under which the promised property does hold.

- The guard of Rollback uses `&&` where its message suggests `||`: target 0 is let through, fails at version 0, and leaves
  the stored configuration behind the log (`RollbackToZeroBreaksLog`, `RollbackKeepsConsistentExactly`).
- An Update whose payload names another configuration is filed there, so a history can begin with a PUT
  (`UpdateBeginsHistory`, `FirstEntryIsPostExactly`).
- A rollback that is cut short leaves an older configuration stored. Trying again puts that right if it goes back a version
  (`RetryRestores`, `RepairsExactly`); a version filed meanwhile cannot be undone (`UpdateOverCutRollback`,
  `StepKeepsChainExactly`).
- A tag names a number, not a state (`TagGoesStale`).
- Names with slashes are accepted, and cleaning up one name can delete another's entries (`CleanupReachesOthers`,
  `CleanupReach`, `WipeHarmlessExactly`); tags with slashes can share an entry (`TagsShareExactly`).
- A comment in the recovery code says that an interrupted deletion should be continued; one that stopped before its first
  hook was written is not (`EarlyDeletionIsStranded`).
- The send to the configuration worker does not block, so the second request of a rollback can be lost, and then every
  caller of the instance waits forever (`SecondRequestCanBeDropped`, `BlockedForeverExactly`).
- A cluster deletion that is refused because of child documents has already deleted the contexts, and can never succeed
  later (`RefusedDeletionIsReached`, `RefusedDeletionStrands`, `StrandedForever`).
- Compensation after a failed installation also deletes a custom resource definition that was there before
  (`PriorDefinitionIsLost`, `InstallMain`).
- A huge percentage turns negative when it is narrowed to 32 bits, or vanishes, so that both limits are zero
  (`HugePercentage`, `MaxUnavailableInRangeExactly`, `HugePercentageVanishes`, `BothZeroExactly`).

## Model

| member | source | states |
|---|---|---|
| `Decimal.AtoiOfItoa` | dep/smo-install/multicloud-k8s/src/k8splugin/internal/app/config_backend.go:366-370 | A counter or tag below 2^63 that was stored as text is read back as the same version number. |
| `Decimal.SignedText` | dep/smo-install/multicloud-k8s/src/k8splugin/internal/app/config.go:381-385 | A version number in a request may carry a sign. |
| `Decimal.NegativeIsHuge` | dep/smo-install/multicloud-k8s/src/k8splugin/internal/app/config.go:385-385 | A negative version number becomes a huge one, above every counter. |
| `KeyCodec.ConstructKey` | dep/smo-install/multicloud-k8s/src/k8splugin/internal/app/config_backend.go:87-100 | The key is the fixed root followed by every segment and one slash each. |
| `KeyCodec.PrefixExactly` | dep/smo-install/multicloud-k8s/src/k8splugin/internal/app/config_backend.go:87-100 | On slash-free segments one key is a string prefix of another exactly when its segment list is a prefix of the other list. |
| `KeyCodec.KeyInjective` | dep/smo-install/multicloud-k8s/src/k8splugin/internal/app/config_backend.go:87-100 | On slash-free segments equal keys mean equal segment lists. |
| `KeyCodec.CleanupReach` | dep/smo-install/multicloud-k8s/src/k8splugin/internal/app/config_backend.go:237-252 | For all names: cleaning up one reaches the counter of another exactly when that one begins with it and a slash; a version or tag entry also when the first name is the other, a slash and the version or tag (or a part of the tag up to a slash). |
| `KeyCodec.CleanupReachesOthers` | dep/smo-install/multicloud-k8s/src/k8splugin/internal/app/config_backend.go:237-252 | Cleaning up a/1 deletes version 1 of a; cleaning up a deletes the counter and the versions of a/1. |
| `ConfigHistory.UnwindMeaning` | dep/smo-install/multicloud-k8s/src/k8splugin/internal/app/config.go:401-437 | The walk down the log completes exactly when no version in its way is refused or is version 1; it then leaves the predecessor recorded one above the target stored, otherwise the predecessor recorded above the version it stopped at. |
| `ConfigHistory.RollbackIsUndo` | dep/smo-install/multicloud-k8s/src/k8splugin/internal/app/config.go:361-446 | Whatever is stored, an accepted rollback to 1 <= r < current leaves exactly versions 1..r and all tags, and the configuration version r installed if and only if version r + 1 was filed over it. |
| `ConfigHistory.RetryRestores` | dep/smo-install/multicloud-k8s/src/k8splugin/internal/app/config.go:400-446 | A rollback cut short anywhere does not change what a later accepted rollback does. |
| `ConfigHistory.RepairsExactly` | dep/smo-install/multicloud-k8s/src/k8splugin/internal/app/config.go:400-446 | Of the later rollbacks that succeed, exactly those that go back at least one version put the stored configuration right. |
| `ConfigHistory.RollbackSucceedsExactly` | dep/smo-install/multicloud-k8s/src/k8splugin/internal/app/config.go:397-446 | A rollback succeeds if and only if it has nothing to undo, or its target is at least 1 and every version above it is accepted; a failed one leaves log and tags alone. |
| `ConfigHistory.RollbackStops` | dep/smo-install/multicloud-k8s/src/k8splugin/internal/app/config.go:402-437 | A rollback that is cut short leaves the configuration of the version it stopped at stored under an unchanged log. |
| `ConfigHistory.RollbackKeepsConsistentExactly` | dep/smo-install/multicloud-k8s/src/k8splugin/internal/app/config.go:392-446 | Rollback keeps the stored configuration equal to the top of the log if and only if it succeeds or the version it stops at holds the current configuration. |
| `ConfigHistory.RollbackToZeroBreaksLog` | dep/smo-install/multicloud-k8s/src/k8splugin/internal/app/config.go:397-410 | Target 0 passes the guard, fails at the read of version 0, and leaves the first of two different versions stored under the second. |
| `ConfigHistory.StepKeepsWellFormed` | dep/smo-install/multicloud-k8s/src/k8splugin/internal/app/config_backend.go:127-152 | Every operation on every input keeps each history of one name, with a configuration stored exactly when it has versions and a POST only as version 1. |
| `ConfigHistory.StepKeepsChainExactly` | dep/smo-install/multicloud-k8s/src/k8splugin/internal/app/config.go:98-446 | Any operation keeps that each version starts from the one below, unless and only unless it files a version while something other than the top one is stored. |
| `ConfigHistory.StepKeepsConsistent` | dep/smo-install/multicloud-k8s/src/k8splugin/internal/app/config.go:98-446 | For one configuration: every operation, on it or any other, keeps that the stored configuration is the top entry and each entry starts from the one below, except a rollback of this very configuration that changes it and fails. |
| `ConfigHistory.StepPushesOrPops` | dep/smo-install/multicloud-k8s/src/k8splugin/internal/app/config.go:98-446 | Each operation changes one history only: a push files the replaced configuration, answers with its number and carries the action of its caller; a cut keeps a prefix; DeleteAll leaves nothing; a refusal changes nothing. |
| `ConfigHistory.RunInvariant` | dep/smo-install/multicloud-k8s/src/k8splugin/internal/app/config.go:62-74 | In every run the log of a configuration is an undo log of what is stored, if no rollback of that configuration was cut short; refused ones and those of other configurations do not matter. |
| `ConfigHistory.RunKeepsPrefix` | dep/smo-install/multicloud-k8s/src/k8splugin/internal/app/config_backend.go:297-320 | While the counter of a configuration never falls below r, versions 1..r never change. |
| `ConfigHistory.CleanRunFilesOver` | dep/smo-install/multicloud-k8s/src/k8splugin/internal/app/config.go:62-74 | Such runs file every version over the one below, which is what the next two theorems ask for. |
| `ConfigHistory.RollbackRestores` | dep/smo-install/multicloud-k8s/src/k8splugin/internal/app/config.go:360-446 | Over every run, with refused, cut short and repeated rollbacks: while the counter stayed at r or above and no version was filed directly over r with something else stored, an accepted rollback to r brings back version r, log and counter, exactly when there is a version to undo or version r is stored anyway. |
| `ConfigHistory.UpdateOverCutRollback` | dep/smo-install/multicloud-k8s/src/k8splugin/internal/app/config.go:400-446 | A version filed after a rollback that was cut short cannot be undone to the version below it. |
| `ConfigHistory.TagRestores` | dep/smo-install/multicloud-k8s/src/k8splugin/internal/app/config.go:366-446 | The same for a rollback by tag, if the tag was not set again: it brings back what the tag was set on. |
| `ConfigHistory.VersionRestores` | dep/smo-install/multicloud-k8s/src/k8splugin/internal/app/config.go:372-446 | The same for a rollback by version number. |
| `ConfigHistory.RollbackToVersion` | dep/smo-install/multicloud-k8s/src/k8splugin/internal/app/config.go:380-446 | A rollback by the number r goes to version r: versions 1..r and the tags stay, what r + 1 replaced is stored; a number at or above the counter or below zero changes nothing, and of the others exactly 0 and those with a refused version above fail. |
| `ConfigHistory.RollbackToNumber` | dep/smo-install/multicloud-k8s/src/k8splugin/internal/app/config.go:380-446 | The same for a number in its decimal form. |
| `ConfigHistory.TagWins` | dep/smo-install/multicloud-k8s/src/k8splugin/internal/app/config.go:371-378 | A tag wins over a version number, and stands for the number it was set to. |
| `ConfigHistory.RollbackRefusals` | dep/smo-install/multicloud-k8s/src/k8splugin/internal/app/config.go:371-395 | Which requests are refused for their tag, number or instance; these change nothing, and no rollback changes another configuration. |
| `ConfigHistory.CreateExactly` | dep/smo-install/multicloud-k8s/src/k8splugin/internal/app/config.go:99-158 | When a Create files version one more with its payload and applied resources, when it succeeds without effect, and when it is refused. |
| `ConfigHistory.UpdateExactly` | dep/smo-install/multicloud-k8s/src/k8splugin/internal/app/config.go:161-217 | When an Update files a version under the name in its payload, over what was stored there, and when it is refused. |
| `ConfigHistory.DeleteExactly` | dep/smo-install/multicloud-k8s/src/k8splugin/internal/app/config.go:298-358 | When a Delete files a DELETE that keeps the configuration and records no resources, and when it is refused. |
| `ConfigHistory.DeleteAllExactly` | dep/smo-install/multicloud-k8s/src/k8splugin/internal/app/config.go:257-295 | When DeleteAll wipes the configuration, and when it is refused. |
| `ConfigHistory.TagitExactly` | dep/smo-install/multicloud-k8s/src/k8splugin/internal/app/config_backend.go:437-454 | A tag is set to the counter, and nothing else changes. |
| `ConfigHistory.TagGoesStale` | dep/smo-install/multicloud-k8s/src/k8splugin/internal/app/config_backend.go:437-454 | After a rollback below the tagged version and a new update, the same tag succeeds and restores a different configuration. |
| `ConfigHistory.FirstEntryIsPostExactly` | dep/smo-install/multicloud-k8s/src/k8splugin/internal/app/config_backend.go:127-152 | Over every run, version 1 is a POST if and only if the last step that began the history was a Create. |
| `ConfigHistory.RunFirstIsPost` | dep/smo-install/multicloud-k8s/src/k8splugin/internal/app/config_backend.go:127-152 | While every Update carries the name it is addressed to, version 1 is the only POST of every history. |
| `ConfigHistory.UpdateBeginsHistory` | dep/smo-install/multicloud-k8s/src/k8splugin/internal/app/config_backend.go:127-152 | An Update addressed to x that carries the name y begins the history of y with a PUT. |
| `ConfigClient.PathText` | dep/smo-install/multicloud-k8s/src/k8splugin/internal/app/config_backend.go:73-79 | The keys of the four kinds in full, with their kinds and the order of their segments. |
| `ConfigClient.PathInjective` | dep/smo-install/multicloud-k8s/src/k8splugin/internal/app/config_backend.go:278-278 | Data, counter, version and tag entries of all configurations of all instances have pairwise different keys, whatever the names; of tags only those with slashes can share one. |
| `ConfigClient.TagsShareExactly` | dep/smo-install/multicloud-k8s/src/k8splugin/internal/app/config_backend.go:447-447 | For all tags: two tag entries are one exactly when one name runs on, after a slash, into the tag of the other. |
| `ConfigClient.PrefixReaches` | dep/smo-install/multicloud-k8s/src/k8splugin/internal/app/config_backend.go:230-256 | For all names, the prefix of a name and a kind reaches the entries of that kind of the name and of the names slashes lead to, and no others. |
| `ConfigClient.WipeHarmlessExactly` | dep/smo-install/multicloud-k8s/src/k8splugin/internal/app/config_backend.go:230-256 | Deleting a configuration leaves another one of the instance as it was if and only if its name does not reach a version, the counter or a tag of the other. |
| `ConfigClient.SlashFreeApart` | dep/smo-install/multicloud-k8s/src/k8splugin/internal/app/config_backend.go:230-256 | Among slash-free names none is reached. |
| `ConfigClient.SlashFreeTagAlone` | dep/smo-install/multicloud-k8s/src/k8splugin/internal/app/config_backend.go:447-447 | Slash-free tags never share an entry. |
| `ConfigClient.ListIsolates` | dep/smo-install/multicloud-k8s/src/k8splugin/internal/app/config_backend.go:183-184 | The listing prefix reaches the stored configurations of one instance, and no others. |
| `ConfigClient.HistoryDeterminesEntries` | dep/smo-install/multicloud-k8s/src/k8splugin/internal/app/config_backend.go:39-45 | Two database states show the same stored configuration and log if and only if their entries for the configuration, tags aside, are the same. |
| `ConfigClient.AppendShown` | dep/smo-install/multicloud-k8s/src/k8splugin/internal/app/config_backend.go:258-295 | Storing a configuration, raising the counter and writing the entry spells out the history with one more version and touches no other configuration. |
| `ConfigClient.CutShown` | dep/smo-install/multicloud-k8s/src/k8splugin/internal/app/config_backend.go:298-320 | Deleting the top entry and lowering the counter spells out the history with one version less and touches no other configuration. |
| `ConfigClient.Isolation` | dep/smo-install/multicloud-k8s/src/k8splugin/internal/app/config_backend.go:178-256 | Changing the entries of one configuration leaves the history every other configuration shows. |
| `ConfigClient.Client.Get` | dep/smo-install/multicloud-k8s/src/k8splugin/internal/db/etcd.go:112-125 | On the flat string keys, reads exactly the entry meant. |
| `ConfigClient.Client.Put` | dep/smo-install/multicloud-k8s/src/k8splugin/internal/db/etcd.go:99-109 | On the flat string keys, changes exactly the entry meant. |
| `ConfigClient.Client.Remove` | dep/smo-install/multicloud-k8s/src/k8splugin/internal/db/etcd.go:144-154 | On the flat string keys, removes exactly the entry meant. |
| `ConfigClient.Client.RemovePrefix` | dep/smo-install/multicloud-k8s/src/k8splugin/internal/db/etcd.go:157-167 | Removes all and only the entries of one kind that the name reaches. |
| `ConfigClient.Client.UpdateConfig` | dep/smo-install/multicloud-k8s/src/k8splugin/internal/app/config_backend.go:127-152 | Stores under the name in the payload and returns what was stored there. |
| `ConfigClient.Client.GetCurrentVersion` | dep/smo-install/multicloud-k8s/src/k8splugin/internal/app/config_backend.go:348-371 | The counter is the number of versions in the log, 0 when there is none. |
| `ConfigClient.Client.CreateConfigVersion` | dep/smo-install/multicloud-k8s/src/k8splugin/internal/app/config_backend.go:259-295 | Writes the counter and the entry for the next number, and nothing else. |
| `ConfigClient.Client.DeleteConfigVersion` | dep/smo-install/multicloud-k8s/src/k8splugin/internal/app/config_backend.go:298-320 | Removes the top entry and lowers the counter, and nothing else. |
| `ConfigClient.Client.CleanupInstanceTags` | dep/smo-install/multicloud-k8s/src/k8splugin/internal/app/config_backend.go:230-256 | Removes exactly the versions, counters and tags the name reaches. |
| `ConfigClient.Client.List` | dep/smo-install/multicloud-k8s/src/k8splugin/internal/app/config_backend.go:178-202 | Returns a configuration if and only if it is what the instance has stored under that name. |
| `ConfigClient.Client.Create` | dep/smo-install/multicloud-k8s/src/k8splugin/internal/app/config.go:99-158 | Acts on the key-value store as the history operation, including the empty success for a configuration that exists. |
| `ConfigClient.Client.Update` | dep/smo-install/multicloud-k8s/src/k8splugin/internal/app/config.go:161-217 | Acts on the key-value store as the history operation, filed under the name in the payload. |
| `ConfigClient.Client.Delete` | dep/smo-install/multicloud-k8s/src/k8splugin/internal/app/config.go:298-358 | Acts on the key-value store as the history operation: a version on top that keeps the configuration. |
| `ConfigClient.Client.DeleteAll` | dep/smo-install/multicloud-k8s/src/k8splugin/internal/app/config.go:257-295 | Acts on the key-value store as the history operation: nothing of the configuration is left. |
| `ConfigClient.Client.Cleanup` | dep/smo-install/multicloud-k8s/src/k8splugin/internal/app/config.go:483-501 | Of the instance exactly the configurations whose last version is a DELETE, or whose deletion the cluster accepts, are gone; everything else is in place. |
| `ConfigClient.Client.ApplyAllConfig` | dep/smo-install/multicloud-k8s/src/k8splugin/internal/app/config.go:504-540 | Applies the versions in order up to the first refused one; on an undo log a complete replay ends with the stored configuration. |
| `ConfigClient.Client.Tagit` | dep/smo-install/multicloud-k8s/src/k8splugin/internal/app/config.go:449-465 | Acts on the key-value store as the history operation. |
| `ConfigClient.Client.GetTagVersion` | dep/smo-install/multicloud-k8s/src/k8splugin/internal/app/config_backend.go:423-435 | Returns the text of the tagged version, or nothing for an unknown tag. |
| `ConfigClient.Client.Rollback` | dep/smo-install/multicloud-k8s/src/k8splugin/internal/app/config.go:361-446 | Both loops together act on the key-value store as the history operation, for every tag, number and pattern of refusals; an accepted rollback by a number below the counter leaves exactly the versions up to that number and what the next one replaced. |
| `ConfigClient.Client.UnwindLoop` | dep/smo-install/multicloud-k8s/src/k8splugin/internal/app/config.go:402-437 | The first loop changes the stored configuration only, to what the walk down the log says, and fails where it says. |
| `ConfigClient.Client.UnwindOne` | dep/smo-install/multicloud-k8s/src/k8splugin/internal/app/config.go:403-436 | Undoing one version stores what it replaced; at version 1 and at a refused version nothing changes. |
| `ConfigClient.Client.CutLoop` | dep/smo-install/multicloud-k8s/src/k8splugin/internal/app/config.go:438-444 | The second loop leaves exactly the entries 1..r and the counter r. |
| `DocumentStore.PointKeeps` | dep/smo-install/multicloud-k8s/src/k8splugin/internal/db/mongo.go:147-160 | The pointer step of Create is the step at which the new datum appears, with or without an existing master. |
| `DocumentStore.ReplaceKeeps` | dep/smo-install/multicloud-k8s/src/k8splugin/internal/db/mongo.go:191-203 | Update replaces the datum of its pair and no other. |
| `DocumentStore.UnpointKeeps` | dep/smo-install/multicloud-k8s/src/k8splugin/internal/db/mongo.go:286-297 | The $unset step of Delete is the step at which the pair disappears. |
| `DocumentStore.DeleteKeeps` | dep/smo-install/multicloud-k8s/src/k8splugin/internal/db/mongo.go:278-340 | Every database step of Delete leaves a sound store without the pair and with all others. |
| `DocumentStore.PointerMeaning` | dep/smo-install/multicloud-k8s/src/k8splugin/internal/db/mongo.go:231-246 | A pair is stored if and only if the master of its key has a pointer for its tag, which leads to its datum. |
| `DocumentStore.CrashAtomic` | dep/smo-install/multicloud-k8s/src/k8splugin/internal/db/mongo.go:131-340 | Stopped after any number of database steps, an operation leaves a store with one master per key and no dangling pointer that stands for the table before or the table after; run to its end, the table after. |
| `DocumentStore.Census` | dep/smo-install/multicloud-k8s/src/k8splugin/internal/db/mongo.go:139-160 | The data documents are as many as the stored pairs and the documents nothing points to together. |
| `DocumentStore.OrphansAfter` | dep/smo-install/multicloud-k8s/src/k8splugin/internal/db/mongo.go:131-340 | A complete operation orphans exactly the datum a Create overwrote; an interrupted one at most one document. |
| `DocumentStore.RunRefinesTable` | dep/smo-install/multicloud-k8s/src/k8splugin/internal/db/mongo.go:131-340 | Over every run with any number of crashes the store is the plain table in which every complete operation, and some of the interrupted ones, took effect. |
| `DocumentStore.RunCensus` | dep/smo-install/multicloud-k8s/src/k8splugin/internal/db/mongo.go:131-340 | Without crashes the data documents are the live pairs plus the overwriting Creates; each crash adds at most one. |
| `DocumentStore.TaglessAfter` | dep/smo-install/multicloud-k8s/src/k8splugin/internal/db/mongo.go:323-337 | A complete operation keeps that every master has a tag; an interrupted one leaves at most one more master without. |
| `DocumentStore.RunTagless` | dep/smo-install/multicloud-k8s/src/k8splugin/internal/db/mongo.go:323-337 | Over every run at most one master for each crash has no tag; without crashes a key has a master if and only if the table has a pair with it. |
| `MongoStore.Store.Create` | dep/smo-install/multicloud-k8s/src/k8splugin/internal/db/mongo.go:131-167 | Puts the pair, passing through exactly the states of the crash theorem, or refuses an empty argument without a step. |
| `MongoStore.Store.Update` | dep/smo-install/multicloud-k8s/src/k8splugin/internal/db/mongo.go:170-210 | Replaces the datum of a stored pair; otherwise changes nothing and says that the master or the tag is missing, which where every master has a tag is what the table lacks: any pair of the key, or this one. |
| `MongoStore.Store.Read` | dep/smo-install/multicloud-k8s/src/k8splugin/internal/db/mongo.go:223-259 | Returns the datum of the pair, and fails if and only if the pair is not stored. |
| `MongoStore.Store.Delete` | dep/smo-install/multicloud-k8s/src/k8splugin/internal/db/mongo.go:278-340 | Removes the pair; succeeds silently when the key has no master (where every master has a tag: no pair in the table) and fails when only the tag is missing. |
| `MongoStore.Store.ReadAll` | dep/smo-install/multicloud-k8s/src/k8splugin/internal/db/mongo.go:343-396 | Returns exactly the keys stored with the tag, with their data, and fails if and only if there are none. |
| `NameCache.StatesRemember` | dep/smo-install/multicloud-k8s/src/k8splugin/internal/namegenerator/namegenerator.go:102-119 | At every database step of writing the cache the store remembers either the old names or the new ones, and a generator can start from it. |
| `NameCache.Cache.Init` | dep/smo-install/multicloud-k8s/src/k8splugin/internal/namegenerator/namegenerator.go:60-99 | After a start the memory holds exactly the persisted names. |
| `NameCache.Cache.Restarted` | dep/smo-install/multicloud-k8s/src/k8splugin/internal/namegenerator/namegenerator.go:60-99 | A generator that starts on the store as a crash has left it at any step has handed out nothing it does not remember. |
| `NameCache.Cache.WriteCacheToDb` | dep/smo-install/multicloud-k8s/src/k8splugin/internal/namegenerator/namegenerator.go:102-119 | Update, or Create without a master, persists exactly the memory. |
| `NameCache.Cache.GenerateName` | dep/smo-install/multicloud-k8s/src/k8splugin/internal/namegenerator/namegenerator.go:121-142 | The first drawn name that is new is returned; memory and store then agree and contain it, and no crash on the way loses a name returned before. |
| `NameCache.FirstUnused` | dep/smo-install/multicloud-k8s/src/k8splugin/internal/namegenerator/namegenerator.go:127-141 | The retry loop returns the first candidate that is not in use. |
| `Ordering.NamesCompare` | dep/smo-install/multicloud-k8s/src/k8splugin/internal/app/hook_sorter.go:44-49 | The order on names is total and asymmetric. |
| `Ordering.NamesByFirstDifference` | dep/smo-install/multicloud-k8s/src/k8splugin/internal/app/hook_sorter.go:44-49 | The first character in which two names differ decides their order, and a beginning comes first. |
| `Ordering.InOrderMeaning` | dep/smo-install/multicloud-k8s/src/k8splugin/internal/app/hook_sorter.go:44-49 | In a sorted list weights do not fall, and names of equal weight are in the order of strings. |
| `Ordering.SortIsCanonical` | dep/smo-install/multicloud-k8s/src/k8splugin/internal/app/hook_sorter.go:22-26 | Any two sorted arrangements of the same items are the same sequence, if number and name identify an item. |
| `Ordering.SortedSorts` | dep/smo-install/multicloud-k8s/src/k8splugin/internal/app/hook_sorter.go:22-26 | A sorted arrangement of any sequence exists. |
| `Ordering.GetHookByEvent` | dep/smo-install/multicloud-k8s/src/k8splugin/internal/app/hook.go:53-63 | Exactly the hooks that declare the event are selected, each as often as it is listed times the number of times it declares the event, in the order of the list. |
| `Ordering.ByEventExactly` | dep/smo-install/multicloud-k8s/src/k8splugin/internal/app/hook.go:53-63 | The same as a law of the selection. |
| `Ordering.ExecutionExactly` | dep/smo-install/multicloud-k8s/src/k8splugin/internal/app/hook.go:66-78 | What is executed for an event: exactly the hooks that declare it, by rising weight. |
| `Ordering.ByEventPermutes` | dep/smo-install/multicloud-k8s/src/k8splugin/internal/app/hook.go:53-63 | Permuting the hooks permutes the hooks of an event. |
| `Ordering.ExecutionIsCanonical` | dep/smo-install/multicloud-k8s/src/k8splugin/internal/app/hook.go:73-78 | Whatever order the chart lists its hooks in, and however they are sorted, the hooks of an event are executed in one and the same sequence. |
| `Ordering.FindNewReplicaSet` | dep/smo-install/multicloud-k8s/src/k8splugin/internal/utils/deploymentutil.go:78-91 | Returns the oldest replica set with the wanted template, ignoring the hash label, or nothing if and only if none matches. |
| `Ordering.EqualIgnoreHashExactly` | dep/smo-install/multicloud-k8s/src/k8splugin/internal/utils/deploymentutil.go:98-105 | Two templates match when they agree in everything but the hash label. |
| `Ordering.OldestIsUnique` | dep/smo-install/multicloud-k8s/src/k8splugin/internal/utils/deploymentutil.go:68-91 | The oldest match does not depend on the order of the list. |
| `Lifecycle.ProgressReadsBack` | dep/smo-install/multicloud-k8s/src/k8splugin/internal/app/instance.go:821-825 | The number before the slash that recovery parses is the number that was persisted. |
| `Lifecycle.StepKeepsHooks` | dep/smo-install/multicloud-k8s/src/k8splugin/internal/app/hook.go:80-124 | Every step and every crash keeps the account: the persisted progress exceeds the hooks created by at most one for each crash and one in flight. |
| `Lifecycle.StepKeepsLife` | dep/smo-install/multicloud-k8s/src/k8splugin/internal/app/instance.go:260-375 | Every step keeps the post-install hooks in order over the whole life and the resource list complete. |
| `Lifecycle.HooksOncePerPhase` | dep/smo-install/multicloud-k8s/src/k8splugin/internal/app/hook.go:80-110 | In every run with any crashes and recoveries, the hooks of a phase are created in order and at most once, and at most one for each crash is skipped. |
| `Lifecycle.DoneSkipsAtMostCrashes` | dep/smo-install/multicloud-k8s/src/k8splugin/internal/app/hook.go:80-110 | An instance that is DONE has skipped at most one post-install hook for each crash of that phase. |
| `Lifecycle.PostInstallHooksOnce` | dep/smo-install/multicloud-k8s/src/k8splugin/internal/app/instance.go:353-368 | Over the whole life of an instance no post-install hook is created twice. |
| `Lifecycle.RecordedResourcesComplete` | dep/smo-install/multicloud-k8s/src/k8splugin/internal/app/instance.go:336-341 | A record that says CREATED, POST-INSTALL, POST-INSTALL-FAILED or DONE lists one resource for each main template, in order and of its kind. |
| `Lifecycle.CreationIsRecorded` | dep/smo-install/multicloud-k8s/src/k8splugin/internal/app/instance.go:320-341 | A main template that is created is recorded under its kind and the name it was given, and all of them are persisted with CREATED. |
| `Lifecycle.RecordedResourcesStay` | dep/smo-install/multicloud-k8s/src/k8splugin/internal/app/instance.go:336-341 | The list persisted with CREATED stays in the record through hooks, crashes, recoveries and deletions; a record that is gone does not come back. |
| `Lifecycle.RecoverResumesExactly` | dep/smo-install/multicloud-k8s/src/k8splugin/internal/app/instance.go:789-899 | A stopped instance is continued if and only if its status is a resumable hook phase with progress written, at the first hook not yet written; in the post-install phase progress always is. |
| `Lifecycle.EarlyDeletionIsStranded` | dep/smo-install/multicloud-k8s/src/k8splugin/internal/app/instance.go:734-753 | A deletion that stops before the progress of its first hook is written keeps the status of a running deletion and is not continued. |
| `Lifecycle.ChartSurvivesRestart` | dep/smo-install/multicloud-k8s/src/k8splugin/internal/app/instance.go:805-811 | Resolving the chart again after a restart keeps the number of hooks and the hook at each position. |
| `Lifecycle.ChartCountsHooks` | dep/smo-install/multicloud-k8s/src/k8splugin/internal/app/hook.go:53-78 | The machine runs as many hooks of an event as the chart declares for it, and those only. |
| `InstanceClient.ExecIsRun` | dep/smo-install/multicloud-k8s/src/k8splugin/internal/app/hook.go:66-138 | For all cluster answers, the hook loop and the handling of its verdict is a run of the life-cycle machine. |
| `InstanceClient.ExecMeaning` | dep/smo-install/multicloud-k8s/src/k8splugin/internal/app/hook.go:80-138 | The hook loop goes up to the first hook that is not deleted, created and ready: those before are created, that one if accepted, and the progress counts them and that one if it could be deleted first. |
| `InstanceClient.Client.ExecHook` | dep/smo-install/multicloud-k8s/src/k8splugin/internal/app/hook.go:66-138 | The code does this from any start index, on the database, its record and the cluster. |
| `InstanceClient.Client.RunHooks` | dep/smo-install/multicloud-k8s/src/k8splugin/internal/app/hook.go:66-138 | The hooks of a phase succeed if and only if each is deleted, created and ready in turn; what they leave is what a run of the machine leaves. |
| `InstanceClient.Client.Create` | dep/smo-install/multicloud-k8s/src/k8splugin/internal/app/instance.go:238-375 | A run of the machine from nothing. A record is left if and only if all pre-install hooks and main templates succeed; it is DONE if and only if all post-install hooks do, which are then all created in order, and it lists every template by its kind and the name it was given. |
| `InstanceClient.Client.CreateTemplates` | dep/smo-install/multicloud-k8s/src/k8splugin/internal/app/client.go:501-520 | Succeeds if and only if no template fails; the resources are the templates by kind and given name, in order, and the machine has made the same. |
| `InstanceClient.Client.PostInstall` | dep/smo-install/multicloud-k8s/src/k8splugin/internal/app/instance.go:354-368 | The thread, started with any hook, leaves the database and the created hooks as a run of the machine does, and DONE if and only if all remaining hooks passed. |
| `InstanceClient.Client.Delete` | dep/smo-install/multicloud-k8s/src/k8splugin/internal/app/instance.go:706-786 | A run of the machine, ending with the record gone exactly when both hook phases pass and the resources could be removed, or when it was DELETED or absent before; a record that is left keeps its resources. |
| `InstanceClient.Client.RunPostDelete` | dep/smo-install/multicloud-k8s/src/k8splugin/internal/app/instance.go:901-938 | Ends with the record gone, DELETED or POST-DELETE-FAILED as hooks and caller decide, as a run of the machine. |
| `InstanceClient.Client.RecoverCreateOrDelete` | dep/smo-install/multicloud-k8s/src/k8splugin/internal/app/instance.go:789-899 | A run of the machine: nothing if the record cannot be continued, otherwise the interrupted phase from the persisted hook on and what follows it, with the status this ends in; a record that is left keeps its resources. |
| `Lifecycle.PhasesInOrder` | dep/smo-install/multicloud-k8s/src/k8splugin/internal/app/instance.go:260-375 | Pre-install hooks, main resources, post-install hooks, and in a deletion pre-delete hooks, removal, post-delete hooks come in this order; no crash or recovery takes an instance back. |
| `Lifecycle.CrashedAnywhere` | dep/smo-install/multicloud-k8s/src/k8splugin/internal/app/instance.go:821-825 | Stopping a call between any two of its steps leaves an instance that keeps both invariants, from which the next call starts. |
| `InstanceClient.GetReverse` | dep/smo-install/multicloud-k8s/src/k8splugin/internal/helm/helm.go:254-261 | Each resource is at the mirrored position. |
| `InstanceClient.KubernetesClient.CreateResources` | dep/smo-install/multicloud-k8s/src/k8splugin/internal/app/client.go:501-520 | Nothing created is refused, and each is new or of a kind that is skipped; the first template that is not created, if any, is refused or already there; success means all were created. |
| `InstanceClient.KubernetesClient.DeleteKind` | dep/smo-install/multicloud-k8s/src/k8splugin/internal/app/client.go:542-567 | A resource that is not there counts as deleted. |
| `InstanceClient.KubernetesClient.DeleteResources` | dep/smo-install/multicloud-k8s/src/k8splugin/internal/app/client.go:569-579 | Removes all members, or the members before the first one that cannot be removed; succeeds if and only if no present member is stuck. |
| `InstanceClient.KubernetesClient.InstallMain` | dep/smo-install/multicloud-k8s/src/k8splugin/internal/app/instance.go:320-334 | Creates as above; when it fails and deletion works, everything created is gone, and the cluster is as before if and only if no template before the one that fails was there before. |
| `InstanceClient.KubernetesClient.RemoveMain` | dep/smo-install/multicloud-k8s/src/k8splugin/internal/app/instance.go:325-325 | Removes all of a list, or stops at one that is there and cannot be removed. |
| `InstanceClient.KubernetesClient.InstallAndDelete` | dep/smo-install/multicloud-k8s/src/k8splugin/internal/app/instance.go:767-767 | Installing and deleting gives the cluster back if and only if no template was there before. |
| `InstanceClient.LosesPriorMeaning` | dep/smo-install/multicloud-k8s/src/k8splugin/internal/app/client.go:501-520 | A template that was there before can be created again only if its kind is one whose creation is skipped. |
| `InstanceClient.KubernetesClient.PriorDefinitionIsLost` | dep/smo-install/multicloud-k8s/src/k8splugin/internal/app/instance.go:320-334 | A definition that was there before is gone after an installation of it and of a deployment that fails. |
| `Healthcheck.GetHookState` | dep/smo-install/multicloud-k8s/src/k8splugin/internal/healthcheck/hooks.go:60-111 | The first phase that is not Running; Unknown for other kinds. |
| `Healthcheck.JobStateExactly` | dep/smo-install/multicloud-k8s/src/k8splugin/internal/healthcheck/hooks.go:120-128 | The first condition that says True of Complete or Failed decides; without one the job is running. |
| `Healthcheck.FinalResult` | dep/smo-install/multicloud-k8s/src/k8splugin/internal/healthcheck/healthcheck.go:234-250 | Failed if any hook failed, else Unknown if any is unknown, else Succeeded. |
| `Healthcheck.StepKeepsInv` | dep/smo-install/multicloud-k8s/src/k8splugin/internal/healthcheck/healthcheck.go:186-263 | Every step keeps: updates match messages, the waiter wakes only when all are finished, and a returned collector has written the final verdict. |
| `Healthcheck.AllFinishedIsLast` | dep/smo-install/multicloud-k8s/src/k8splugin/internal/healthcheck/healthcheck.go:206-214 | "All hooks finished" is sent at most once, after all N messages were received and written. |
| `Healthcheck.NeverStuck` | dep/smo-install/multicloud-k8s/src/k8splugin/internal/healthcheck/healthcheck.go:186-263 | Until the collector returns some goroutine can move; after it returned all have ended and none is blocked. |
| `Healthcheck.RunIsShort` | dep/smo-install/multicloud-k8s/src/k8splugin/internal/healthcheck/healthcheck.go:186-263 | A measure bounds every interleaving by 4N + 4 steps. |
| `Healthcheck.EveryRunConverges` | dep/smo-install/multicloud-k8s/src/k8splugin/internal/healthcheck/healthcheck.go:186-263 | Every interleaving that cannot go on has made N + 1 updates, the last with all phases and the verdict on them, independent of the finishing order. |
| `Healthcheck.RunningUntilTheEnd` | dep/smo-install/multicloud-k8s/src/k8splugin/internal/healthcheck/healthcheck.go:216-232 | Until the last update the check reads as running and shows of each hook nothing or its true phase; a hook whose message was dealt with is shown. |
| `ConfigWorker.StepKeepsInv` | dep/smo-install/multicloud-k8s/src/k8splugin/internal/app/config_backend.go:457-570 | Every step keeps mutex, blocked callers and worker in agreement and every request dropped, held or answered. |
| `ConfigWorker.OneOutstanding` | dep/smo-install/multicloud-k8s/src/k8splugin/internal/app/config_backend.go:474-481 | In every interleaving at most one caller waits, its request is held by the worker if and only if it was not dropped, and no request is answered twice. |
| `ConfigWorker.ReplyReachesItsCaller` | dep/smo-install/multicloud-k8s/src/k8splugin/internal/app/config_backend.go:484-495 | When the worker replies, the only possible step of all is the receive by the caller that made the request. |
| `ConfigWorker.DroppedExactly` | dep/smo-install/multicloud-k8s/src/k8splugin/internal/app/config_backend.go:474-480 | A request is dropped if and only if it is offered while the worker is not at its receive. |
| `ConfigWorker.DroppedWedges` | dep/smo-install/multicloud-k8s/src/k8splugin/internal/app/config_backend.go:474-481 | After a dropped request no continuation changes the state of any caller of the instance again. |
| `ConfigWorker.AcceptedIsAnswered` | dep/smo-install/multicloud-k8s/src/k8splugin/internal/app/config_backend.go:488-560 | From the moment the worker holds a request, every interleaving consists of the rest of the work and the reply to its caller, and cannot stop before. |
| `ConfigWorker.BlockedForeverExactly` | dep/smo-install/multicloud-k8s/src/k8splugin/internal/app/config_backend.go:474-486 | In every reachable state a blocked caller stays blocked in all continuations if and only if its request was dropped. |
| `ConfigWorker.SecondRequestCanBeDropped` | dep/smo-install/multicloud-k8s/src/k8splugin/internal/app/config.go:402-416 | The second request of one rollback can come before the worker is back, which wedges the instance. |
| `NetworkIntents.TextInjective` | dep/smo-install/multicloud-k8s/src/ncm/internal/ovncontroller/ovncontroller.go:67-96 | A network and a provider network never share a resource name, and different intents never do. |
| `NetworkIntents.LastContextOwned` | dep/smo-install/multicloud-k8s/src/orchestrator/pkg/state/state_helper.go:39-76 | In a well-shaped log the last context id is among the ids, and there are ids unless the cluster was just created. |
| `NetworkIntents.LogShapeGrows` | dep/smo-install/multicloud-k8s/src/ncm/pkg/scheduler/scheduler.go:242-306 | Applying with a fresh id and terminating the last one keep the log Created followed by Applied/Terminated pairs of distinct ids. |
| `NetworkIntents.CreateClusterExactly` | dep/smo-install/multicloud-k8s/src/clm/pkg/cluster/cluster.go:231-275 | When a cluster is created, and with which action log. |
| `NetworkIntents.PutNetworkExactly` | dep/smo-install/multicloud-k8s/src/ncm/pkg/networkintents/network.go:84-129 | A network is put if and only if the cluster is created or terminated and the network is new or to be replaced; nothing else changes. |
| `NetworkIntents.DropNetworkExactly` | dep/smo-install/multicloud-k8s/src/ncm/pkg/networkintents/network.go:188-226 | A network is dropped if and only if the cluster is created or terminated; nothing else changes. |
| `NetworkIntents.PutProviderNetExactly` | dep/smo-install/multicloud-k8s/src/ncm/pkg/networkintents/providernet.go:86-131 | The same for provider networks, with the states that are refused in silence. |
| `NetworkIntents.DropProviderNetExactly` | dep/smo-install/multicloud-k8s/src/ncm/pkg/networkintents/providernet.go:190-228 | The same for provider networks, with the states that are refused in silence. |
| `NetworkIntents.ResourcesExactly` | dep/smo-install/multicloud-k8s/src/ncm/internal/ovncontroller/ovncontroller.go:44-94 | The resources are the networks and the provider networks, each with its document. |
| `NetworkIntents.ApplyExactly` | dep/smo-install/multicloud-k8s/src/ncm/pkg/scheduler/scheduler.go:140-261 | When applying does nothing, is refused or fails, and what it adds to the log and the contexts otherwise. |
| `NetworkIntents.TerminateExactly` | dep/smo-install/multicloud-k8s/src/ncm/pkg/scheduler/scheduler.go:264-312 | Only an applied cluster changes, and only if rsync accepts; the action added names the same context. |
| `NetworkIntents.DeleteClusterExactly` | dep/smo-install/multicloud-k8s/src/clm/pkg/cluster/cluster.go:405-453 | What a deletion needs, and that it takes the contexts in the log and the cluster. |
| `NetworkIntents.StepKeepsInv` | dep/smo-install/multicloud-k8s/src/ncm/pkg/scheduler/scheduler.go:140-312 | Every operation keeps the log shape, the freeze and the ownership of contexts; it keeps every logged context live if and only if it is not a deletion refused after its cleanup. |
| `NetworkIntents.DeleteKeeps` | dep/smo-install/multicloud-k8s/src/clm/pkg/cluster/cluster.go:405-453 | A successful deletion leaves neither the cluster nor any of its contexts and harms no other cluster. |
| `NetworkIntents.IntentsFrozenWhileApplied` | dep/smo-install/multicloud-k8s/src/ncm/pkg/networkintents/network.go:84-129 | In every reachable state an applied cluster shows exactly the networks and provider networks its last context was made from. |
| `NetworkIntents.ContextsConserved` | dep/smo-install/multicloud-k8s/src/clm/pkg/cluster/cluster.go:405-453 | Without a refused deletion the live contexts are exactly the ids in the logs. |
| `NetworkIntents.RefusedDeletionStrands` | dep/smo-install/multicloud-k8s/src/clm/pkg/cluster/cluster.go:425-450 | A deletion refused for the sake of child documents has already removed the contexts and leaves the cluster stranded. |
| `NetworkIntents.RefusedDeletionIsReached` | dep/smo-install/multicloud-k8s/src/clm/pkg/cluster/cluster.go:405-453 | A run from the empty store that ends there: create a cluster and a network, apply, terminate, delete. |
| `NetworkIntents.StrandedForever` | dep/smo-install/multicloud-k8s/src/clm/pkg/cluster/cluster.go:435-444 | Over every continuation a stranded cluster cannot be deleted. |
| `Collection.FirstMatchIsOwn` | dep/smo-install/multicloud-k8s/src/orchestrator/pkg/infra/db/mongo.go:147-162 | Although the filter of a key also matches everything below it, the first match is the document of that key, or there is none. |
| `Collection.UpsertMeaning` | dep/smo-install/multicloud-k8s/src/orchestrator/pkg/infra/db/mongo.go:243-293 | An insert under a key whose parents are there changes or adds the document of that key and no other, and keeps the order that makes this so. |
| `Collection.PutExactly` | dep/smo-install/multicloud-k8s/src/orchestrator/pkg/infra/db/mongo.go:264-276 | An insert adds or replaces one tag of one document and leaves all other tags and documents. |
| `Collection.FoundMeaning` | dep/smo-install/multicloud-k8s/src/orchestrator/pkg/infra/db/mongo.go:296-340 | A find is empty if and only if the key has no document; otherwise its first result is that of the document itself. |
| `Collection.ChildrenMeaning` | dep/smo-install/multicloud-k8s/src/orchestrator/pkg/infra/db/mongo.go:164-195 | A find with an empty name returns the children of that kind, each once. |
| `Collection.RemoveMeaning` | dep/smo-install/multicloud-k8s/src/orchestrator/pkg/infra/db/mongo.go:361-383 | A remove is refused if and only if something is left below the key; otherwise it takes the document of the key and no other. |
| `Collection.Store.Insert` | dep/smo-install/multicloud-k8s/src/orchestrator/pkg/infra/db/mongo.go:243-293 | Acts on the documents as a write to a table. |
| `Collection.Store.Find` | dep/smo-install/multicloud-k8s/src/orchestrator/pkg/infra/db/mongo.go:296-340 | Reads the table. |
| `Collection.Store.Remove` | dep/smo-install/multicloud-k8s/src/orchestrator/pkg/infra/db/mongo.go:361-383 | Counts the matches, refuses or deletes the first; as an operation on the table. |
| `ClusterClient.LinkedUnique` | dep/smo-install/multicloud-k8s/src/clm/pkg/cluster/cluster.go:64-92 | The documents determine the clusters, their intents and their other children. |
| `ClusterClient.ChildrenExactly` | dep/smo-install/multicloud-k8s/src/clm/pkg/cluster/cluster.go:435-444 | A cluster has children if and only if its filter matches more than its own document. |
| `ClusterClient.Client.CreateClusterProvider` | dep/smo-install/multicloud-k8s/src/clm/pkg/cluster/cluster.go:141-160 | Adds the provider unless it is there; no cluster changes. |
| `ClusterClient.Client.DeleteClusterProvider` | dep/smo-install/multicloud-k8s/src/clm/pkg/cluster/cluster.go:215-228 | Succeeds if and only if no cluster of the provider is left. |
| `ClusterClient.Client.CreateCluster` | dep/smo-install/multicloud-k8s/src/clm/pkg/cluster/cluster.go:231-275 | Three inserts make the document of the cluster with metadata, content and action log, and so the operation of the state machine, which needs the document of the provider; the invariants are kept. |
| `ClusterClient.Client.GetClusterState` | dep/smo-install/multicloud-k8s/src/clm/pkg/cluster/cluster.go:330-352 | Finds the action log of the cluster among all the documents its filter matches. |
| `ClusterClient.Client.DeleteCluster` | dep/smo-install/multicloud-k8s/src/clm/pkg/cluster/cluster.go:405-453 | State gate, deletion of the contexts in any order and the remove that children make fail are together the operation of the state machine. |
| `ClusterClient.Client.CreateOther` | dep/smo-install/multicloud-k8s/src/clm/pkg/cluster/cluster.go:456-482 | A label or key-value pair is added if and only if the cluster is there and the child is not. |
| `ClusterClient.Client.CreateNetwork` | dep/smo-install/multicloud-k8s/src/ncm/pkg/networkintents/network.go:84-129 | Succeeds if and only if the cluster is created or terminated and the network new or to be replaced; then exactly the document under the network key of that name carries the intent, and the cluster shows it. The invariants are kept. |
| `ClusterClient.Client.DeleteNetwork` | dep/smo-install/multicloud-k8s/src/ncm/pkg/networkintents/network.go:188-226 | Succeeds if and only if the cluster is created or terminated; then exactly the document under the network key of that name is gone. The invariants are kept. |
| `ClusterClient.Client.CreateProviderNet` | dep/smo-install/multicloud-k8s/src/ncm/pkg/networkintents/providernet.go:86-131 | The same under the provider network key: networks, other children and all other clusters are as before; silent where the code wraps a nil error. |
| `ClusterClient.Client.DeleteProviderNet` | dep/smo-install/multicloud-k8s/src/ncm/pkg/networkintents/providernet.go:190-228 | The same under the provider network key; silent where the code wraps a nil error. |
| `ClusterClient.Client.ListResources` | dep/smo-install/multicloud-k8s/src/ncm/internal/ovncontroller/ovncontroller.go:44-94 | The documents of one kind of intents become resources, each intent once. |
| `ClusterClient.Client.OvnApply` | dep/smo-install/multicloud-k8s/src/ncm/internal/ovncontroller/ovncontroller.go:34-136 | The context gets exactly one resource for each intent document, and an order instruction that names each once, networks first. |
| `ClusterClient.Client.ApplyNetworkIntents` | dep/smo-install/multicloud-k8s/src/ncm/pkg/scheduler/scheduler.go:140-261 | Gate, context and new action on the documents are the operation of the state machine; a failure on the way leaves no context. |
| `ClusterClient.Client.TerminateNetworkIntents` | dep/smo-install/multicloud-k8s/src/ncm/pkg/scheduler/scheduler.go:264-312 | If the cluster is applied and rsync accepts, the action log in its document gets one more action with the context id of the open pair; otherwise nothing changes. The invariants are kept. |
| `Rollout.ResolveMeaning` | dep/smo-install/multicloud-k8s/src/k8splugin/internal/utils/deploymentutil.go:151-166 | A surge percentage is rounded up, an unavailable percentage down. |
| `Rollout.ToInt32Exactly` | dep/smo-install/multicloud-k8s/src/k8splugin/internal/utils/deploymentutil.go:177-177 | The conversion keeps the low 32 bits. |
| `Rollout.FencepostsExactly` | dep/smo-install/multicloud-k8s/src/k8splugin/internal/utils/deploymentutil.go:159-178 | What both limits come out as, for all settings. |
| `Rollout.MaxUnavailableExactly` | dep/smo-install/multicloud-k8s/src/k8splugin/internal/utils/deploymentutil.go:138-148 | Nothing without rolling updates, replicas or well-formed settings; one if both limits resolve to zero; otherwise the limit, but no more than the replicas. |
| `Rollout.BothZeroExactly` | dep/smo-install/multicloud-k8s/src/k8splugin/internal/utils/deploymentutil.go:159-178 | Surge and unavailable both come out as zero if and only if a setting is malformed or the 32-bit conversion makes a limit vanish while the other is zero or vanishes. |
| `Rollout.HugePercentageVanishes` | dep/smo-install/multicloud-k8s/src/k8splugin/internal/utils/deploymentutil.go:177-177 | A percentage for which both come out as zero. |
| `Rollout.MaxUnavailableInRangeExactly` | dep/smo-install/multicloud-k8s/src/k8splugin/internal/utils/deploymentutil.go:138-148 | For non-negative settings the result and the readiness threshold lie between 0 and the replicas if and only if the percentage does not wrap around in 32 bits (or plays no part). |
| `Rollout.HugePercentage` | dep/smo-install/multicloud-k8s/src/k8splugin/internal/utils/deploymentutil.go:177-177 | A percentage that makes the threshold exceed the replicas, and fall when replicas are added. |
| `Rollout.ThresholdMonotonic` | dep/smo-install/multicloud-k8s/src/k8splugin/internal/statuscheck/ready.go:270-277 | Short of the wrap-around, the number of replicas that must be ready never decreases as replicas are added. |

## Left out

- ConfigClient.Client.DeleteAll: requires that a name it does delete reaches no other configuration of the instance, which always holds without slashes; `WipeHarmlessExactly` says exactly when it fails, and the database then no longer holds the other configuration's history.
- ConfigClient.Client.Cleanup: requires the same of each configuration it deletes.
- ConfigClient.Client.Tagit: requires that no other tag of the instance shares its entry, which always holds without slashes in tags; `TagsShareExactly` says exactly which tags do, and they are then one tag.
- ConfigClient.Client.GetTagVersion: requires the same of the tag it reads.
- ConfigClient.Client.Rollback: requires the same of a tag it is given.
- ConfigClient.Client.Get: requires, of a tag's key, that no other entry has the same path. The same holds for Put and Remove.
- ConfigClient.PathInjective: names of configurations may be any strings and tags share paths as `TagsShareExactly` says, but instances, and the bundle, version and profile names they resolve to, are taken to be free of slashes throughout the module; instance names come from a generator.
- ConfigClient.Client.Create: requires fewer than 2^63 versions, as do Update, Delete, DeleteAll and Cleanup.
- NameCache.Cache.GenerateName: requires that the random names drawn contain an unused one, because the code retries until it finds one; reads fail only when nothing is stored.
- MongoStore.Store.Create: requires a tag other than `_id` and `key`, which would overwrite the master's own elements.
- MongoStore.Store.Update: requires a tag other than `_id` and `key`, as Create does.
- MongoStore.Store.Delete: requires a tag other than `_id` and `key`, as Create does.
- Healthcheck.GetHookState: requires of a job or pod that some poll finds a phase other than Running, because the code polls until one does.
- ClusterClient.Client.ApplyNetworkIntents: requires a context id that is new.
- Collection.Store.Insert: requires the documents of the key's parents; the handlers check for them before they insert.
- Empty names in keys, which the HTTP handlers refuse and a find would take as a wildcard.
- Rollout.ThresholdMonotonic: is stated for percentages that do not wrap around for the larger number of replicas, because a wrapped value need not be monotonic (`HugePercentage`).
- Rollout.MaxUnavailableInRangeExactly: computes percentages exactly, where the library the code calls multiplies in floating point.
- What configuration actions do to the cluster during a rollback: a refusal is modelled, the contents of the cluster are not.
- Failing database calls other than a crash, serialisation of records, and `Get` and `Help` of the configuration client.
- Concurrent calls on one instance record, on one document key or on one cluster; the STOP request of the configuration worker.
- Cascading deletion of the contents of a namespace, and the resources that a crash in the middle of their creation leaves without an entry in the record.
- Namespaces and custom resource definitions made before the pre-install hooks: a failure there leaves the record as a crash would.
- The start of the hooks of a healthcheck, and its Get, List and Delete.
- What cluster labels and key-value pairs hold, and queries by label.
- DCM, the app context's own key format, placement and broker code, the query API, readiness of kinds other than deployments.
- HTTP handlers, TLS, chart rendering, archives, temporary files, logging, sleeps and timeouts.
