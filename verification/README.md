# The gateway's state engine, verified

A Dafny model of the Zigbee gateway firmware's state engine and of the bounded data structures around it: the
reducer over the 64-slot device table, the lock-free snapshot registry, the seqlock read models, the event loop, the
command tables and their inboxes, the persisted configuration with its schema migrations, MQTT delta publication, the
device locator registry, the reporting manager with its occupancy filter, and Tuya frame parsing and initialisation.

`dafny verify dfyconfig.toml` checks everything. Objects whose methods update fields are classes, each method proved
equal to a function of the old state; what the firmware promises is then proved about those functions, over all inputs
and all runs. Concurrent protocols are transition systems with one step per atomic operation.

| file | content |
|---|---|
| `Common`, `Slots`, `Ring` | integer widths, slot arrays seen as finite maps, the bounded ring |
| `CoreTypes`, `Reducer`, `DeviceMap`, `ReducerInvariant`, `ReducerRefinement`, `ReducerTracking`, `ReducerHistory` | the reducer as a function, in its imperative form, and as a step on a finite map |
| `SnapshotProtocol`, `SnapshotSafety`, `SnapshotCapacity`, `CoreRegistry`, `RegistryRefinement` | the snapshot registry: steps, safety, capacity, the object, and the object as the undisturbed protocol |
| `Seqlock` | the read-model storages |
| `RuntimeLoop` | event queue, reduce and publish, and the fold |
| `CommandDispatcher`, `CommandLifecycle`, `CommandSends`, `CommandManager`, `CommandIngress` | pending and tracked commands, retries, timeouts, what they send, inboxes |
| `ConfigModel`, `ConfigMigration`, `ConfigTheorems`, `ConfigManager` | stored words, migrations, round trips, the object over storage whose writes fail |
| `MqttDelta`, `MqttTheorems`, `MqttBridge` | delta publication, its exact capacity, the object |
| `DeviceLocator` | device identity to network address and back |
| `ReportingEntry`, `OccupancyRuns`, `RetryRuns`, `ReportingManager`, `ReportingRuns` | backoff, retries, the occupancy filter, the object, runs over all its devices |
| `TuyaDpParser`, `TuyaInit`, `TuyaInitRuns`, `TuyaInitSends` | frame grammar and parser, initialisation sequencing, what it transmits |

Where the code and its own remarks differ, the model follows the code. The remark in
`components/core/include/core_state.hpp:40-42` says that an invalid identity marks a free slot and that no record is
keyed by network address alone; the reducer (`components/core/core_reducer.cpp:22-52`) does keep identity-less records,
matched by address among themselves.

Some promises turned out to hold only under a condition, which is proved to be exact:

- a delta cycle is complete if and only if its publications fit the 192-entry queue (`DeltaCompleteIffFits`); they do not
  when one device leaves while 64 others arrive (`OneForSixtyFourIsLost`);
- the occupancy debounce is kept if and only if it is at most 2^31 ms (`DebounceSafeIff`), the hold time if and only if
  it is at most 2^31 ms or its excess is covered by the debounce (`HoldSafeIff`);
- an interrupted start loses nothing if and only if the schema key is stored or the data to be inferred is trivial
  (`ConvergesIffResilient`);
- a Tuya step is sure of its five seconds if and only if its deadline does not wrap past zero (`DeadlineNeverEarlyIff`);
- two temperatures print alike if and only if they are equal, or opposite and smaller than one degree, where the sign
  is lost and -0.50 reads as 0.50 (`TemperatureShownIff`);
- no run with n registry readers refuses a publish if and only if n is at most six (`NeverRefusedIffSixReaders`).

One holds under a condition shown to be needed: a locator revision identifies its mapping until the registry is cleared
(`RevisionIdentifiesMapping`, `ClearForgetsRevisions`).

## Model

| member | source | states |
|---|---|---|
| `ReducerInvariant.ReachableInv` | components/core/core_reducer.cpp:251-502 | in every state reachable from the empty one, through events and restarts from any state persisted earlier, occupied records are online, free slots are default records, device_count is exact and keys are unique |
| `ReducerInvariant.InvMeaning` | components/core/core_reducer.cpp:43-52 | the invariant in counts: device_count, online records, occupied slots and map size agree and stay within 64; valid identities are distinct; identity-less records have distinct addresses |
| `ReducerInvariant.ReduceKeepsInv` | components/core/core_reducer.cpp:251-502 | every event preserves the invariant |
| `DeviceMap.FirstMatchIsLookup` | components/core/core_reducer.cpp:22-41 | the slot scan finds exactly the record of the event's key in the finite map, by identity or among identity-less records by address |
| `DeviceMap.FreeSlotIffRoom` | components/core/core_reducer.cpp:45-52 | a free slot exists exactly when the map has fewer than 64 entries |
| `ReducerRefinement.ReduceRefinesStep` | components/core/core_reducer.cpp:251-334 | state and effects of the reducer are those of one step on a finite map of at most 64 devices: join inserts or relocates, leave removes, other events update one key |
| `ReducerRefinement.LayoutIsInvisible` | components/core/core_reducer.cpp:251-502 | over whole runs, final map and every effect are those of the map specification, so slot layout never shows |
| `ReducerRefinement.LegacyEventsCannotTouchIdentities` | components/core/core_reducer.cpp:18-41 | an event without a valid identity never changes a record that owns one, in any state |
| `ReducerRefinement.EventsTouchOnlyTheirKey` | components/core/core_reducer.cpp:22-41 | an event changes no occupied record other than the one of its key |
| `ReducerTracking.RevisionTracksChange` | components/core/core_reducer.cpp:497-499 | the revision moves by one on every change of state and not otherwise |
| `ReducerTracking.EqualRevisionsMeanEqualStates` | components/core/core_reducer.cpp:497-499 | along a run, equal revisions mean identical states |
| `ReducerTracking.PersistExactlyOnChange` | components/core/core_reducer.cpp:54-74 | the persist effect is emitted exactly when devices or connectivity changed, with the revision about to be published; the four-effect list never overflows |
| `ReducerTracking.RepeatsAreAbsorbed` | components/core/core_reducer.cpp:76-247 | reducing any event but a command result twice from a reachable state equals reducing it once, and the repetition emits nothing, command requests aside |
| `ReducerHistory.RecordsFitHistories` | components/core/core_reducer.cpp:76-247 | over any run, every field of a registered device is what the events addressed to the device since it joined say: powerOn is the last on/off report, or false; each reading is the last valid report of its kind brought into range, present exactly if the last report of that kind was valid; occupancy, contact bits, stage, staleness, address and report time likewise |
| `ReducerHistory.ReducerRemembers` | components/core/core_reducer.cpp:251-502 | the same of every occupied slot of the reducer, in every run from the empty state |
| `ReducerHistory.RegisteredIff` | components/core/core_reducer.cpp:258-335 | a device is registered after an event exactly if it joined with it while there was room, or was registered and has not left with it |
| `ReducerHistory.StatusFitsHistory` | components/core/core_reducer.cpp:337-415 | over any run, connectivity is that of the last network event and the command status that of the last result: 1 success, 2 timeout, 3 failure, 0 before any |
| `ReducerHistory.AnnouncementsAgree` | components/core/core_reducer.cpp:54-74 | the telemetry effect comes second, right after the persist effect, and carries the device count and connectivity of the new state |
| `ReducerHistory.OnboardingAdvances` | components/core/core_reducer.cpp:251-334 | an interview, bind, configure or read effect is emitted only for the event that calls for it, at that event's address, and whenever that event changed the devices |
| `Reducer.FindDeviceIndex` | components/core/core_reducer.cpp:22-41 | the two scans return the first slot matching the key, or -1 |
| `Reducer.FindFreeSlot` | components/core/core_reducer.cpp:45-52 | the scan returns the first slot with neither identity nor address, or -1 |
| `Reducer.CoreReduce` | components/core/core_reducer.cpp:251-502 | the in-place form, with its change flags and bounded effect list, equals the reducer function that the other theorems are about |
| `Reducer.HandleJoin` | components/core/core_reducer.cpp:257-301 | the join branch: insert, bring back online, relocate or ignore |
| `Reducer.ApplyTelemetryUpdate` | components/core/core_reducer.cpp:120-247 | the telemetry branch changes exactly the reading reported, and reports a change exactly when the record differs |
| `SnapshotProtocol.ScanVisitsAll` | components/core/core_registry.cpp:85-97 | the publisher's modular scan visits all eight slots |
| `SnapshotSafety.ReachableBookkeeping` | components/core/core_registry.cpp:13-48 | in every interleaving each pin count equals the slot's outstanding pins, validated and transient; the repair branch of release is never needed; the advertised id is that of the active slot, or of the publish about to become active |
| `SnapshotSafety.PinProtectsSlot` | components/core/core_registry.cpp:13-48 | from the validating load to the release, no step of any thread writes the pinned slot |
| `SnapshotSafety.PinnedReadIsOnePublish` | components/core/core_registry.cpp:13-59 | what is copied through a pin, cell by cell, is exactly the publish that was newest when the pin was validated, never a mix |
| `SnapshotSafety.ReadsAreMonotone` | components/core/core_registry.cpp:13-32 | of two validated pins, in any threads, the later sees the same publish or a newer one with a larger revision |
| `SnapshotSafety.PublishInstallsRequest` | components/core/core_registry.cpp:76-114 | a completing publish appends the requested state, its revision raised above the previous one when it was not |
| `SnapshotSafety.HistoryGrows` | components/core/core_registry.cpp:105-113 | completed publishes are never forgotten or reordered |
| `SnapshotCapacity.FailedScanNeedsSevenReaders` | components/core/core_registry.cpp:85-104 | when a scan that finds no slot began, each of the seven slots other than the active one had a reader on it, so there are at least seven readers |
| `SnapshotCapacity.PublishNeverRefused` | components/core/core_registry.cpp:76-104 | with at most six readers no publish of any run is refused |
| `RegistryRefinement.NeverRefusedIffSixReaders` | components/core/core_registry.cpp:85-104 | for every n: no run of the protocol with n readers refuses a publish if and only if n is at most six |
| `RegistryRefinement.SevenReadersCanBlock` | components/core/core_registry.cpp:85-104 | on the object: after seven pins, each on another publish, the next publish fails |
| `RegistryRefinement.UndisturbedPublish` | components/core/core_registry.cpp:76-114 | without interference the protocol's steps do exactly what the object's publish computes |
| `RegistryRefinement.ReaderGetsCurrent` | components/core/core_registry.cpp:13-59 | from any reachable state a reader left alone pins the active slot, and its copy is the current state |
| `RegistryRefinement.CellsIdentifyState` | components/core/core_registry.cpp:50-59 | no two states share a memory image, so reading one completed publish is reading one state |
| `CoreRegistry.CoreRegistry.Publish` | components/core/core_registry.cpp:76-114 | whole new memory and verdict of a publish: first unpinned inactive slot in scan order, revision raised, ids advanced; on refusal nothing changes |
| `CoreRegistry.CoreRegistry.PinCurrent` | components/core/core_registry.cpp:13-32 | without interference the pin is on the active slot and adds one to its count |
| `CoreRegistry.CoreRegistry.ReleaseSnapshot` | components/core/core_registry.cpp:34-48 | a release clears the handle and takes one pin away, never below zero |
| `CoreRegistry.CoreRegistry.SnapshotCopy` | components/core/core_registry.cpp:50-59 | a copy is the current state and leaves the registry as it was |
| `CoreRegistry.PublishedInstalls` | components/core/core_registry.cpp:76-114 | a successful publish makes the state current, its revision raised to the next one only if it is not new, under the next id, in a slot nobody has pinned; pinned slots and, on refusal, everything stay as they were |
| `CoreRegistry.RefusedIffAllPinned` | components/core/core_registry.cpp:85-104 | a publish is refused exactly when every slot but the active one is pinned |
| `Seqlock.AcceptedReadIsOneStore` | components/service/read_model_coordinator.cpp:12-47 | in every interleaving of field reads and writes, an accepted read is one value written completely by one store, the newest one at acceptance |
| `Seqlock.RetryMeansOverlap` | components/service/read_model_coordinator.cpp:153-183 | a read is retried exactly when a store is under way or completed since it began |
| `Seqlock.ReadsAreMonotone` | components/service/read_model_coordinator.cpp:186-212 | of two accepted reads, in any threads, both values are completed stores and the later one is no older |
| `Seqlock.ReadyMeansStored` | components/service/read_model_coordinator.cpp:12-47 | the ready flag is up only after a store completed, and only a guarded storage refuses a read |
| `Seqlock.ReadyIffFinished` | components/service/read_model_coordinator.cpp:12-47 | the ready flag of a guarded storage is up exactly when some store has taken its last step |
| `Seqlock.RefusedIffNothingFinished` | components/service/read_model_coordinator.cpp:153-212 | in every run a load is refused if and only if the storage is guarded and no store has finished before it; any other load goes ahead |
| `Seqlock.CopyStartsIffQuiet` | components/service/read_model_coordinator.cpp:153-183 | a try starts copying exactly when no store is under way; otherwise it changes nothing |
| `Seqlock.StoreCompletes` | components/service/read_model_coordinator.cpp:12-47 | left alone, a store ends with its value in the cells, in the history, and the guarded storage ready |
| `Seqlock.LoadCompletes` | components/service/read_model_coordinator.cpp:153-183 | left alone, a load begun while the writer rests is accepted at the first try with the newest value |
| `Ring.Ring.Push` | components/service/service_runtime.cpp:291-302 | a full ring refuses and is unchanged; otherwise the element is appended |
| `Ring.Ring.Pop` | components/service/service_runtime.cpp:304-314 | elements leave in push order |
| `RuntimeLoop.ServiceRuntime.ProcessPending` | components/service/service_runtime.cpp:1397-1443 | at most 64 events a call; a call that stops sooner has taken in everything that arrived and left nothing queued; arrivals are refused only when the queue is full; what was queued and accepted equals what was popped, in order, and what is still queued; registry and effects are the turn-by-turn result, readers moving between turns as they like |
| `RuntimeLoop.TurnInstallsReduced` | components/service/service_runtime.cpp:1417-1443 | one turn makes the reduced state current, or on a refused publish keeps the old one; the persist effect carries the revision published exactly when the publish succeeded |
| `RuntimeLoop.CurrentIsFold` | components/service/service_runtime.cpp:1397-1443 | when no publish fails, the current state is the fold of the reducer over the events popped, and the effects are those of that fold, whatever pins stand at each publish |
| `RuntimeLoop.SixPinsNeverFail` | components/service/service_runtime.cpp:1417-1443 | when at each publish at most six slots are pinned, whichever they are, no publish of the loop fails, so the fold is unconditional |
| `CommandDispatcher.CoreCommandDispatcher.Submit` | components/core/core_command_dispatcher.cpp:59-94 | verdict, new pending table and request event of a submission, in the code's order of checks |
| `CommandDispatcher.CoreCommandDispatcher.Resolve` | components/core/core_command_dispatcher.cpp:96-124 | verdict, new pending table and completion event of a result |
| `CommandDispatcher.CoreCommandDispatcher.ExpireTimeouts` | components/core/core_command_dispatcher.cpp:126-163 | exactly the expired commands, each once, are removed and reported, all of them unless the capacity cuts the list |
| `CommandDispatcher.CoreCommandDispatcher.PendingIsWellKeyed` | components/core/core_command_dispatcher.cpp:59-119 | pending ids are distinct and nonzero, and at most sixteen |
| `CommandLifecycle.CommandBounds` | components/service/command_manager.cpp:129-243 | over any run, with pushes refused at will, a command accepted once produces at most one terminal event and at most 1 + allowed retries requests and expiries, and has left the dispatcher once its terminal event is out or its attempts are used up |
| `CommandLifecycle.ExpiryConsumesPatience` | components/service/command_manager.cpp:209-243 | each expiry strictly decreases the command's remaining attempts (retries left + 1 if tracked, else 1); no expiry leaves them as they are |
| `CommandLifecycle.TablesAgree` | components/service/command_manager.cpp:129-155 | at every call boundary tracked ids are pending ids, so an accepted submission always finds a free tracking slot |
| `CommandLifecycle.ResubmissionAccepted` | components/service/command_manager.cpp:217-231 | the dispatcher never refuses the resubmission of an expired tracked command |
| `CommandSends.SubmissionSends` | components/core/core_command_dispatcher.cpp:21-94 | a submission is accepted exactly if its id is nonzero and not pending, its type supported and fewer than sixteen commands pending; it is then pending and tracked with its retries, and pushes one request with its own id, device, address, desired power and kind, unless the queue is full |
| `CommandSends.ResolutionReports` | components/core/core_command_dispatcher.cpp:96-124 | a result for a pending id removes it from both tables and pushes one event about that command, of the kind of the result, unless the queue is full; any other result changes nothing |
| `CommandSends.ExactCounts` | components/service/command_manager.cpp:129-243 | over every run in which no push is refused: requests since acceptance are 1 plus the expiries that retried, at most the retries allowed, and there is one terminal event if and only if the command has left the dispatcher |
| `CommandSends.EventsCarryTheCommand` | components/service/command_manager.cpp:129-243 | over every run, refused pushes included: each event pushed under an id is about the command last accepted under it, a request for its kind and power, or its end, marked true exactly for a success |
| `CommandSends.TimeoutsReport` | components/service/command_manager.cpp:209-243 | what a timeout pass pushes, and what it keeps in the tables, are commands that were there before |
| `CommandSends.TimeoutsAreStamped` | components/service/command_manager.cpp:209-243 | what a timeout pass pushes carries the time of the pass |
| `CommandSends.ExpiredInTrueTime` | components/core/core_command_dispatcher.cpp:126-147 | a command expires exactly once its nonzero timeout has passed, also across a wrap of the clock, when looked at within 2^32 ms |
| `CommandSends.PowerCommandReachesRadio` | components/core/core_reducer.cpp:360-379 | end to end: the event an accepted power command pushes makes the reducer emit exactly one radio effect, for the address and power of the command, and a refresh one refresh effect |
| `CommandManager.CommandManager.SubmitCommand` | components/service/command_manager.cpp:129-155 | the object's submission equals the operation on the two tables; the no-tracking-slot branch does not occur |
| `CommandManager.CommandManager.ResolveResult` | components/service/command_manager.cpp:157-174 | the object's resolution equals the operation on the two tables |
| `CommandManager.CommandManager.ProcessTimeouts` | components/service/command_manager.cpp:209-243 | the object's timeout pass equals the operation on the two tables, for the order in which the dispatcher reports |
| `CommandManager.CommandManager.Retry` | components/service/command_manager.cpp:222-231 | a retry spends one attempt whether or not it is queued |
| `CommandIngress.CommandIngress.PostCommand` | components/service/command_manager.cpp:10-50 | commands without id or type are rejected, a full inbox refuses, otherwise the command is last in line |
| `CommandIngress.CommandIngress.HandleCommandResult` | components/service/command_manager.cpp:25-74 | the same for results |
| `CommandIngress.CommandIngress.DrainRequests` | components/service/command_manager.cpp:176-189 | every posted command is submitted once, in order, whatever becomes of the others |
| `CommandIngress.CommandIngress.DrainResults` | components/service/command_manager.cpp:191-207 | every posted result goes once, in order, to the Tuya coordinator if it takes it, else to the tables |
| `CommandIngress.RoutingSplits` | components/service/command_manager.cpp:191-207 | mixed results act on the tables exactly as those left to them do alone, and on the coordinator exactly as its own do alone |
| `CommandIngress.CommandResultsReachTables` | components/service/service_runtime.cpp:675-681 | results with ids below the coordinator's range all reach the tables, in order, and leave the coordinator alone |
| `CommandIngress.ResultsAcknowledge` | components/service/command_manager.cpp:191-207 | in every run of the coordinator it takes a result exactly when one of its slots waits under that id, as the acknowledgement of that outcome; a result not taken leaves it alone |
| `ConfigModel.WordsRoundTrip` | components/service/config_manager.cpp:51-80 | a profile with nonzero address, endpoint and cluster survives packing into four words |
| `ConfigModel.ReadConfigIsGood` | components/service/config_manager.cpp:630-744 | whatever the store holds, the configuration read obeys the setters' rules |
| `ConfigModel.ProfileWritesStore` | components/service/config_manager.cpp:646-686 | after the compacted writes slot i holds exactly the words of entry i |
| `ConfigModel.RedoAfterPrefix` | components/service/config_manager.cpp:502-628 | repeating a list of writes after any prefix of it equals doing it once |
| `ConfigMigration.AttemptKeepsOutcome` | components/service/config_manager.cpp:193-217 | with schema key 1, 2 or 3 stored, a load cut off at any write leaves a store from which a full load ends in the same store |
| `ConfigMigration.InterruptedMigrationConverges` | components/service/config_manager.cpp:193-217 | any number of cut-off loads, then a full one, end in the store one uninterrupted load leaves, at schema 3 |
| `ConfigTheorems.MigrationPreservesConfig` | components/service/config_manager.cpp:502-628 | migrated profiles are the current ones if counted, else exactly the decodable entries among the first sixteen legacy slots, in order; scalars come from the legacy keys, then the current ones, then the defaults |
| `ConfigTheorems.LegacyEntriesAreExactly` | components/service/config_manager.cpp:559-611 | the entries migrated are all decodable legacy slots below the count, in increasing order, and nothing else |
| `ConfigTheorems.SaveThenLoad` | components/service/config_manager.cpp:220-237 | a complete save on any store, stale slots included, then a load, restores timeout, retries and the answer for every profile key, and the load writes nothing |
| `ConfigTheorems.CompactionKeepsAnswers` | components/service/config_manager.cpp:646-686 | closing the gaps, packing and unpacking change no lookup |
| `ConfigTheorems.ConvergesIffResilient` | components/service/config_manager.cpp:164-202 | for every loadable store, with or without a schema key: all interrupted runs end in the uninterrupted configuration if and only if the schema key is stored, or an inferred version 1 has default retries, or an inferred version 2 has no decodable profile |
| `ConfigTheorems.DecodableIff` | components/service/config_manager.cpp:51-80 | two words name a profile exactly when they are a nonzero address, a nonzero endpoint, the valid bit and anything above it, and a nonzero cluster |
| `ConfigTheorems.MigratedProfilesMean` | components/service/config_manager.cpp:559-611 | after a migration each profile has the address, endpoint, cluster, capabilities, both intervals and reportable change that the four legacy keys of its slot hold; the slots used are exactly the usable ones, in order |
| `ConfigTheorems.LoadedProfilesMean` | components/service/config_manager.cpp:688-744 | the same of each table slot and the four current keys of that slot; the slot is filled exactly if its mandatory keys name a profile below the count |
| `ConfigTheorems.LoadedScalarsMean` | components/service/config_manager.cpp:144-218 | timeout and retries after a load: legacy keys before current ones for version 1, current ones else; 5000 ms and 1 when missing or out of range |
| `ConfigTheorems.KeylessLoads` | components/service/config_manager.cpp:164-202 | which of the stored keys decide what a load without a schema key ends with |
| `ConfigManager.ConfigManager.SetCommandTimeout` | components/service/config_manager.cpp:257-269 | zero is refused; the dirty flag is raised exactly by a change |
| `ConfigManager.ConfigManager.SetMaxRetries` | components/service/config_manager.cpp:275-287 | more than five is refused; the dirty flag is raised exactly by a change |
| `ConfigManager.ConfigManager.FindProfileIndex` | components/service/config_manager.cpp:293-307 | the first slot in use with the key, which is what a lookup answers with |
| `ConfigManager.ConfigManager.SetReportingProfile` | components/service/config_manager.cpp:318-335 | refused exactly for a zero key part or when full; otherwise the answer changes for that key only |
| `ConfigManager.ConfigManager.ClearReportingProfile` | components/service/config_manager.cpp:337-346 | no other key's answer changes; with distinct keys the cleared key has no answer any more |
| `ConfigManager.ConfigManager.Save` | components/service/config_manager.cpp:220-237 | a save does a prefix of the planned writes, all of them exactly when it succeeds, and it fails exactly when the storage refused one |
| `ConfigManager.ConfigManager.Load` | components/service/config_manager.cpp:144-218 | success ends with the configuration of an uninterrupted load; failure, which needs a refused write or a newer schema, has done a proper prefix of the migration and leaves the defaults; the load report is exact |
| `ConfigManager.ConfigManager.MigrateToCurrent` | components/service/config_manager.cpp:502-628 | a migration does a prefix of the planned writes, all of them exactly when it succeeds, and it fails exactly when the storage refused one |
| `ConfigManager.ConfigManager.LoadReportingProfiles` | components/service/config_manager.cpp:688-744 | table slot i is store slot i below the capped count, gaps included |
| `MqttDelta.ComparisonIsComplete` | components/mqtt_bridge/mqtt_device_sync.cpp:29-48 | devices the field comparison takes for equal have the same telemetry text, so nothing that shows is left unpublished |
| `MqttDelta.TemperatureShownIff` | components/mqtt_bridge/mqtt_serializer.cpp:49-55 | two temperatures print alike if and only if they are equal, or opposite and smaller than one degree |
| `MqttDelta.DeltaEqualsFull` | components/mqtt_bridge/mqtt_device_sync.cpp:133-206 | a view that agrees with the cache agrees with the new active devices after the cycle's publications, vanished devices showing offline |
| `MqttTheorems.DeltaCompleteIffFits` | components/mqtt_bridge/mqtt_device_sync.cpp:138-146 | for at most 64 active devices, a cycle brings every agreeing view to the snapshot if and only if its publications fit 192 entries; what an overfull cycle loses are announcements of vanished devices |
| `MqttTheorems.TurnoverCompletesIff` | components/mqtt_bridge/mqtt_device_sync.cpp:133-206 | when all devices change, a cycle is complete if and only if three publications per arrival and one per departure fit 192 entries |
| `MqttTheorems.OneForSixtyFourIsLost` | components/mqtt_bridge/mqtt_device_sync.cpp:186-199 | one device leaving while 64 others arrive is not announced, and some agreeing view goes on showing it as online; with 63 arrivals the cycle is complete |
| `MqttTheorems.PlanFits` | components/mqtt_bridge/mqtt_device_sync.cpp:133-206 | at most 64 distinct devices across cache and snapshot always fit |
| `MqttTheorems.ResyncIsSilent` | components/mqtt_bridge/mqtt_device_sync.cpp:148-199 | synchronising the same snapshot again sends nothing |
| `MqttTheorems.ViewFollowsSnapshots` | components/mqtt_bridge/mqtt_device_sync.cpp:133-225 | over any run of drained cycles the retained view agrees with the latest snapshot |
| `MqttTheorems.BrokerShowsDevices` | components/mqtt_bridge/mqtt_device_sync.cpp:50-129 | over any run of drained cycles the broker shows of each online device of the latest snapshot, at the topics of its address, that it is available, its own power state, and each of its readings by value when present and absent otherwise; every other address it knows shows offline |
| `MqttBridge.MqttBridge.SyncSnapshot` | components/mqtt_bridge/mqtt_device_sync.cpp:133-206 | the cache becomes the active devices and the queue the first 192 planned publications; nothing happens before start |
| `MqttBridge.MqttBridge.DrainPublications` | components/mqtt_bridge/mqtt_device_sync.cpp:208-225 | the oldest publications leave, the rest stay in order, the rest of the buffer is untouched |
| `MqttBridge.MqttBridge.DrainAll` | components/mqtt_bridge/mqtt_bridge.cpp:197-224 | the batches concatenate to the queue |
| `DeviceLocator.DeviceLocatorRegistry.Remap` | components/service/device_locator_registry.cpp:39-90 | result code and whole new directory; a failing call changes nothing |
| `DeviceLocator.DeviceLocatorRegistry.MarkOffline` | components/service/device_locator_registry.cpp:92-99 | only the status of that device changes |
| `DeviceLocator.DeviceLocatorRegistry.Remove` | components/service/device_locator_registry.cpp:101-110 | only that device disappears, and the count follows |
| `DeviceLocator.DeviceLocatorRegistry.FindByDeviceId` | components/service/device_locator_registry.cpp:112-121 | the entry of that identity, online or not |
| `DeviceLocator.DeviceLocatorRegistry.FindByShortAddr` | components/service/device_locator_registry.cpp:123-132 | the online owner of the address, or nothing exactly when it has none |
| `DeviceLocator.RemapLaws` | components/service/device_locator_registry.cpp:39-90 | after a successful remap the two lookups are mutually inverse on the pair; any other entry that differs is the displaced owner, offline |
| `DeviceLocator.OneDisplaced` | components/service/device_locator_registry.cpp:56-73 | a remap displaces at most one device, and then reports it |
| `DeviceLocator.RemapCodes` | components/service/device_locator_registry.cpp:39-90 | the code returned tells what happened: reserved identity or address, no room for a new device, or an entry added, moved, or another device displaced |
| `DeviceLocator.ReachableSane` | components/service/device_locator_registry.cpp:8-139 | in every reachable registry, clears included, each device has one entry, online entries are injective in the address, revisions are distinct and below the next one |
| `DeviceLocator.RevisionIdentifiesMapping` | components/service/device_locator_registry.cpp:75-88 | along any stretch of a run without a clear, a device seen twice under one revision has the same mapping, apart from having gone offline; revisions never decrease |
| `DeviceLocator.ClearForgetsRevisions` | components/service/device_locator_registry.cpp:134-139 | across a clear one revision can stand for two different mappings |
| `DeviceLocator.DeviceLocatorRegistry.Clear` | components/service/device_locator_registry.cpp:134-139 | an empty directory, and revisions start over |
| `ReportingEntry.ComputeBackoff` | components/service/reporting_manager.cpp:45-62 | the doubling loop computes min(8 s, 1 s * 2^(attempt - 1)) |
| `ReportingEntry.BackoffGrows` | components/service/reporting_manager.cpp:45-62 | backoff never shrinks with the attempt and lies between 1 and 8 seconds |
| `ReportingEntry.DueIsNeverEarlyIff` | components/service/reporting_manager.cpp:64-66 | the modular deadline test is never early, across any clock wraps, exactly for windows up to 2^31 |
| `ReportingEntry.DueIffElapsed` | components/service/reporting_manager.cpp:64-66 | within 2^31 ms of its start a window of at most 2^31 ms is over, by the modular test, exactly when it is over in true time |
| `OccupancyRuns.EmissionsAlternate` | components/service/reporting_manager.cpp:353-430 | consecutive emitted values differ |
| `OccupancyRuns.DebounceSafeIff` | components/service/reporting_manager.cpp:389-410 | every later emission follows an unbroken run of agreeing reports spanning the debounce time, on all report sequences, exactly for debounce times up to 2^31 |
| `OccupancyRuns.HoldSafeIff` | components/service/reporting_manager.cpp:383-387 | a clear never comes sooner than the hold time after the occupied before it, on all report sequences, exactly for hold times up to 2^31 or with an excess covered by the debounce |
| `OccupancyRuns.EmittedIff` | components/service/reporting_manager.cpp:353-430 | for windows up to 2^31 and less than 2^31 after the last emission, a report is emitted if and only if it says the opposite and reports have said so without a break for the debounce time, for a clear counted from no earlier than the end of the hold |
| `RetryRuns.RetriesAreBounded` | components/service/reporting_manager.cpp:93-248 | between two clearing events at most three retries fire, joins and other events included |
| `RetryRuns.RetryWaitsForBackoff` | components/service/reporting_manager.cpp:93-248 | a retry repeats the operation of an earlier retryable failure, not cleared since, and comes no sooner than its backoff, across clock wraps |
| `RetryRuns.ExhaustedDegrades` | components/service/reporting_manager.cpp:201-213 | a failure beyond the third attempt, or not worth retrying, degrades the device, and nothing fires until another failure |
| `RetryRuns.DueRetryFires` | components/service/reporting_manager.cpp:182-248 | after a failure worth retrying, with attempts left, the first tick past the backoff does repeat that operation, unless something cleared it or failed again, within 2^31 ms |
| `ReportingRuns.DevicesAreIndependent` | components/service/reporting_manager.cpp:93-430 | in every run of calls the entry of each device is what the calls about it alone make of a fresh entry, so the laws of one device hold of every device in the table |
| `ReportingRuns.EntryTakenIff` | components/service/reporting_manager.cpp:93-180 | a device has an entry after a call exactly if it had one and has not left, or joins or reports occupancy while there is room |
| `ReportingRuns.AnswersAreTheFilters` | components/service/reporting_manager.cpp:353-430 | an occupancy report is answered with an event exactly when the filter of that device, fed with its own reports, emits |
| `ReportingRuns.TicksFireForDevices` | components/service/reporting_manager.cpp:221-248 | a tick asks for an operation exactly when some device's own retry of it is due |
| `ReportingRuns.CallsAskForSteps` | components/service/reporting_manager.cpp:93-219 | in every run an event asks for a step exactly when its device newly enters the stage that waits for it, and a failure degrades exactly when it is not retryable or three attempts are spent |
| `ReportingRuns.HistoriesInOrder` | components/service/reporting_manager.cpp:93-430 | calls in the order of time give each device a history in the order of time |
| `ReportingRuns.ManagerRetriesBehave` | components/service/reporting_manager.cpp:93-248 | in every run of calls each device retries at most three times between clearing events, each time for an earlier failure whose backoff has passed |
| `ReportingManager.ReportingManager.HandleEvent` | components/service/reporting_manager.cpp:93-180 | new entries and actions for every event: a join may take a slot, a leave gives it back |
| `ReportingManager.ReportingManager.ReportOperationFailure` | components/service/reporting_manager.cpp:182-219 | new entries and actions for a failure |
| `ReportingManager.ReportingManager.ProcessTimeouts` | components/service/reporting_manager.cpp:221-248 | every due retry fires; an action is requested exactly when a retry for it fired |
| `ReportingManager.ReportingManager.NormalizeOccupancyReport` | components/service/reporting_manager.cpp:353-430 | new entries and emitted event for a report; a full table drops the report of an unknown device |
| `ReportingManager.OnlyReportsTouchOccupancy` | components/service/reporting_manager.cpp:93-248 | no other call, and no other device's report, disturbs a device's occupancy filter, except that the device leaves |
| `ReportingManager.EmittedEventIsStable` | components/service/reporting_manager.cpp:413-429 | the emitted event is a valid occupancy report for that address and time carrying the new stable value, which is the opposite of the previous one |
| `TuyaDpParser.Parse` | components/service/tuya_dp_parser.cpp:47-127 | the result's status and items describe the frame: complete in-bound records, then a tail that earns that verdict |
| `TuyaDpParser.VerdictIsUnique` | components/service/tuya_dp_parser.cpp:66-126 | every frame has exactly one status and one list of records |
| `TuyaDpParser.AcceptedIff` | components/service/tuya_dp_parser.cpp:67-126 | a frame is accepted exactly when it is a valid Tuya view of 2 to 128 bytes whose body concatenates at most eight in-bound records |
| `TuyaDpParser.ParseOfSerialised` | components/service/tuya_dp_parser.cpp:67-126 | parsing serialised records returns those records |
| `TuyaDpParser.ReserialisesIff` | components/service/tuya_dp_parser.cpp:94-99 | items of an accepted frame serialise to its bytes exactly when no type code above 5, other than 255, occurs |
| `TuyaDpParser.ItemsCarryRecords` | components/service/tuya_dp_parser.cpp:92-99 | each item has the identifier and value of its record, and the type of the wire codes 0 to 5: raw, boolean, value, string, enumeration, bitmap; anything else is unknown |
| `TuyaInit.TuyaInitCoordinator.Tick` | components/service/tuya_init_coordinator.cpp:37-80 | all expired waits fail their step, then the first pending device sends its current step, at most one per tick |
| `TuyaInit.TuyaInitCoordinator.NotifyAck` | components/service/tuya_init_coordinator.cpp:82-107 | new slots and whether the acknowledgement was taken |
| `TuyaInit.TuyaInitCoordinator.NotifyDeviceResolved` | components/service/tuya_init_coordinator.cpp:8-28 | the device's slot, or the first free one, restarts with the plan; without room nothing changes |
| `TuyaInit.TuyaInitCoordinator.NotifyDeviceRemoved` | components/service/tuya_init_coordinator.cpp:30-35 | the device's slot becomes free; an unknown device changes nothing |
| `TuyaInitRuns.AckHitsExactlyLatest` | components/service/tuya_init_coordinator.cpp:82-107 | in every reachable state an acknowledgement is taken if and only if some slot waits under that id, its latest; then that slot alone moves on, otherwise nothing changes |
| `TuyaInitRuns.StepsInOrderAndBounded` | components/service/tuya_init_coordinator.cpp:8-107 | since its device was resolved a slot has sent steps in plan order, without gaps, each at most four times; ready means the whole plan was sent, degraded means four sends of one step |
| `TuyaInitSends.ActionsFollowPlan` | components/service/tuya_init_coordinator.cpp:37-80 | over any run, the action a tick returns carries the step of the plan given at resolution that comes after as many steps as were positively acknowledged since, the resolved address, and the id the slot then waits under; it is the next entry of the log of sends |
| `TuyaInitSends.SlotsFollow` | components/service/tuya_init_coordinator.cpp:8-107 | over any run each slot holds the device and plan it was last resolved with, and its step counts the positive acknowledgements taken since |
| `TuyaInitSends.IdsAreConsecutive` | components/service/tuya_init_coordinator.cpp:56-75 | the m-th action ever transmitted carries the m-th correlation id |
| `TuyaInitRuns.TickShrinks` | components/service/tuya_init_coordinator.cpp:37-80 | a tick never raises the total of (steps left, retries left, phase), and lowers it whenever it has something to do |
| `TuyaInitRuns.AckOpShrinks` | components/service/tuya_init_coordinator.cpp:82-107 | an effective acknowledgement lowers the same total, whether positive or negative |
| `TuyaInitRuns.RankPaysForProgress` | components/service/tuya_init_coordinator.cpp:37-107 | in every run of ticks and acknowledgements the measure left, the ticks that found something to do and the acknowledgements taken add up to at most the measure at the start |
| `TuyaInitRuns.EveryRunSettles` | components/service/tuya_init_coordinator.cpp:37-107 | every run of ticks and acknowledgements has all devices ready or degraded once as many ticks came past the awaited deadlines as the measure at the start counts; the measure, which bounds all progress, is at most 512 |
| `TuyaInitRuns.SettledStays` | components/service/tuya_init_coordinator.cpp:37-107 | ready and degraded devices stay so under ticks and acknowledgements |
| `TuyaInitRuns.IdleTickChangesNothing` | components/service/tuya_init_coordinator.cpp:37-80 | a tick idles exactly when nothing is pending and every wait has its deadline ahead, and then changes nothing |
| `TuyaInitRuns.UnsettledBecomesLive` | components/service/tuya_init_coordinator.cpp:37-80 | while a device is unsettled, every tick from some clock reading on makes progress |
| `TuyaInitRuns.MovesAreBounded` | components/service/tuya_init_coordinator.cpp:8-107 | over any run, arrivals and departures of other devices included, a slot changes at most eight times per step of its plan since its device was resolved, and is settled when it has no change left |
| `TuyaInitRuns.DeadlineNeverEarlyIff` | components/service/tuya_init_coordinator.cpp:38-76 | a step has its five seconds, and no more, before it can time out exactly when the deadline does not wrap past zero |

## Left out

- CommandLifecycle.CommandBounds: the pushes admitted in one call form a prefix, because the queue's only consumer is the thread making the call; a second consumer is not modelled.
- MqttTheorems.ViewFollowsSnapshots: assumes distinct active addresses, cycles drained before the next, and a broker that starts with no device shown online; messages lost by the transport are not modelled.
- TuyaInitRuns.UnsettledBecomesLive: speaks of clock readings at or past a deadline; a tick first made after the clock has wrapped waits until the clock reaches that reading again.
- CommandSends.ExactCounts: speaks of runs in which no push is refused; with refusals the bounds of `CommandBounds` are what holds.
- CommandSends.ExpiredInTrueTime: a command first looked at more than 2^32 ms after its issue is taken for a younger one.
- OccupancyRuns.EmittedIff: windows above 2^31 ms, and reports more than 2^31 ms after the last emission, are beyond what the modular test can tell; what still holds there are the alternation and safety laws.
- RetryRuns.DueRetryFires: a tick that first comes more than 2^31 ms after the failure may find the retry not yet due.
- RuntimeLoop.ServiceRuntime.ProcessPending: what the managers push between pops and where readers stand at each publish are inputs; autoconnect, statistics and read-model notifications around the loop are not modelled.
- CoreRegistry.CoreRegistry.PinCurrent: interference is the subject of the step protocol, not of the object; the retry loop appears here with its one uninterrupted turn.
- Wrap-around of revisions, snapshot ids, sequence numbers, locator revisions and Tuya correlation ids: these are unbounded.
- Weak memory, tasks and real locks: steps are sequentially consistent, and a locked body is one step.
- Second writers to the registry or to one read-model storage.
- What the device, configuration and network builders put into the read models; the seqlock is proved for any content.
- Executing effects: radio, LED, persistence and HTTP calls behind the effect list.
- Reporting policy defaults, which are never persisted, and the resolution of a profile from them.
- Stale-candidate collection and the status getters of the reporting manager: simple scans.
- Setting a device's power override and single-device state changes of the MQTT bridge between cycles.
- Message texts: MQTT payloads are modelled by the values printed, absent readings as `null`; topics by their parts; the formatting is assumed to fit its buffers.
- Typed accessors of Tuya items (boolean, integer, enumeration): reads of at most four bytes.
- The fields of a command that carry a reporting profile: the dispatcher rejects that command type.
- Update managers, signatures, TLS, Home Assistant discovery, the Matter bridge, Wi-Fi policy, identity text and scripts.
