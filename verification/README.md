# Glint: verified models

Glint polls Proxmox servers, keeps the latest readings in a cache, and raises alerts from it.
These files model its stateful core and prove properties of whole runs.
`dafny verify dfyconfig.toml` checks everything.

**Alert engine.** `AlertMachine` is one evaluation as a transition of two memories (when a key last
fired, since when its condition has held); `AlertRuns` proves what holds over every run; `AlertRules`
builds the checks and their keys from a snapshot and the configuration; `WalkOrder` says when the order
of the walk shows; `AlertEngine` is the alerter as a class that updates its maps in place while it ranges
over a snapshot, proved to follow the transition function, with the theorems on runs drawn for the object.
Times are integer nanoseconds on a clock that never goes back. The flag `gc` compares the engine with one
that never forgets. The proofs give exact horizons: forgetting after six hours is invisible exactly for
cooldowns of at most 6 h + 1 ns, and an alert is certain to come within cooldown + duration + 2 gaps
exactly when duration + gap is at most 6 h + 1 ns (a duration of zero counting as one nanosecond). Beyond
that a timer can be dropped and re-seeded for ever.

**Worker pool.** `PollPool` is the semaphore of the pool, any number of polls that share it, and their
workers, as a labelled transition system over all interleavings with cancellation at any time.
`wg.Done` comes before the slot is released, and a waiting `Submit` may take either ready branch.
`Overlays` has maps laid over each other in some order, as the workers lay their results.

**Cache.** `CacheReplay` says what a history of writes amounts to. `SnapshotCache` is the cache on the
heap, with shared cells, the one write in place, and snapshots that copy; its contents are the
replay of its history, and no later write reaches a snapshot.

**Backup index.** `BackupIndex` is the keep-latest loop of a PBS poll and its readers: the guest list,
the dashboard widget and the stale alert answer from the kept entries as from all snapshots.
`Names` says when names joined by a slash can be told apart, which the keys of alerts and of backups rest on.

**SMART.** `SmartText` and `ScsiReport` are the text parsers with their round trips (`Text` and
`Decimal` hold the string functions they need), `SmartRisk` the bucket table and the verdicts,
`SmartCollect` the requests for a disk with their fallbacks, the evaluation in place and the scalar readings,
`SmartOutcome` what a disk ends with in terms of the answers.
Rates are in thousandths a year.

**Display.** `Display` is the unit loop of the byte counts, over checked 64-bit integers.

Where the code and its comments differ, the code is followed. `FindBucket` takes both bounds of a bucket as
included and the first match (internal/smart/thresholds.go:158), although the comment at line 4 calls the upper bound
exclusive; `SmartRisk.VerdictByLimit` gives the limits that follow. `EvaluateAttribute` does not look at its `protocol`
(internal/smart/evaluate.go:9), so NVMe fields are judged by the ATA entry of the same number; see
`SmartCollect.NvmeWearIsJudgedAsSectors`.

## Model

| member | source | states |
|---|---|---|
| AlertMachine.Project | internal/alerter/alerter.go:145-313 | When one check has a key, that key's slot and firing after an evaluation depend only on its slot and that check, whatever else the evaluation does, in whatever order and whatever other keys are shared |
| AlertMachine.LogShape | internal/alerter/alerter.go:145-313 | The notifications of an evaluation are exactly the fired checks, each once, in the order of the walk |
| AlertMachine.OrderIndependence | internal/alerter/alerter.go:145-313 | Any two orders of the same checks leave the same memories and send the same multiset of notifications |
| AlertRuns.Beat | internal/alerter/alerter.go:125-143 | In a run, one evaluation moves a key's slot by `cleanup` and then by its check, and a key that is not looked at keeps its slot and sends nothing |
| AlertRuns.LastFiredHistory | internal/alerter/alerter.go:330-334 | The remembered time is that of a real firing, and every earlier firing is covered by it or is past the six-hour horizon |
| AlertRuns.FiresExactly | internal/alerter/alerter.go:125-131 | A ripe check fires exactly when no earlier firing of its key is both within the cooldown and at most six hours old |
| AlertRuns.RoundSpacing | internal/alerter/alerter.go:330-334 | Whatever keys are shared, a firing of an evaluation keeps the cooldown its key has there, or more than six hours, from all earlier firings of the key, those of the same evaluation included |
| AlertRuns.CooldownSpacing | internal/alerter/alerter.go:330-334 | In every run, shared keys or not, any two firings of a key are at least its cooldown, or more than six hours, apart |
| AlertRuns.AlikeAlong | internal/alerter/alerter.go:125-131 | At each evaluation the engine that forgets agrees on such keys with the one that never does, or lacks a time past the horizon |
| AlertRuns.GcKeepsFirings | internal/alerter/alerter.go:125-131 | A key of instant rules with cooldowns of at most 6 h + 1 ns fires at the same evaluations with and without garbage collection |
| AlertRuns.GcUnobservable | internal/alerter/alerter.go:125-137 | For such keys, shared or not, the two engines send the same notifications in the same order at every evaluation of every run |
| AlertRuns.GcInvisibleExactly | internal/alerter/alerter.go:125-137 | Garbage collection never shows for a cooldown if and only if that is at most 6 h + 1 ns |
| AlertRuns.SinceHistory | internal/alerter/alerter.go:316-328 | A running timer was seeded by an evaluation that saw the condition hold, and no evaluation since saw it clear |
| AlertRuns.SustainedSoundness | internal/alerter/alerter.go:316-328 | A sustained rule fires only if an evaluation at least the duration earlier saw the condition hold and none since saw it clear |
| AlertRuns.NeverFiresBeyondHorizon | internal/alerter/alerter.go:132-136 | A key whose checks have durations above six hours never fires, in any run and however many checks share it |
| AlertRuns.BoundedResponse | internal/alerter/alerter.go:125-137 | A condition that holds at every evaluation of a window of cooldown + duration + 2 gaps fires within it, although the timer is dropped and re-seeded |
| AlertRuns.Starvation | internal/alerter/alerter.go:125-137 | When duration + gap is above the horizon there is a run, with no gap too long, in which the rule never fires |
| AlertRuns.ResponsiveExactly | internal/alerter/alerter.go:125-137 | The response is bounded for all runs if and only if duration + gap is at most 6 h + 1 ns |
| Names.UnnestedExactly | internal/alerter/alerter.go:149-150 | Members behind a set of names, joined by a slash, can always be told apart if and only if no name with its slash starts another with its slash |
| Names.UnsharedExactly | internal/alerter/alerter.go:149-150 | One join can be told from all those behind a set of names if and only if no other of the names, with its slash, starts it |
| AlertRules.KeysInjective | internal/alerter/alerter.go:145-313 | A subject's key is no other subject's, even in another snapshot, by a condition on the names of its own rule alone: no other instance name starts the key, or the names behind the instances have no slash; guests need no condition on cluster names, disks none at all |
| AlertRules.KeysApartExactly | internal/alerter/alerter.go:145-313 | With any names behind the instances, no snapshot has two subjects with one key if and only if the instance names do not nest, for each rule in force that puts them into keys |
| WalkOrder.WalksAgree | internal/alerter/alerter.go:139-314 | Where every subject of a snapshot has its key to itself, any two walks end in the same memories and send the same notifications |
| WalkOrder.OrderShowsExactly | internal/alerter/alerter.go:139-314 | With a positive backup cooldown, any two walks over any snapshot agree from any memories if and only if the instance names do not nest, for each rule in force that puts them into keys |
| AlertRules.SeenSubject | internal/alerter/alerter.go:145-313 | In a run a subject's check is the one made under its key when it is present, and none is made under it when it is absent, by the names of its own rule alone |
| AlertRules.SubjectSeen | internal/alerter/alerter.go:145-313 | In a run, every check made under a key belongs to a subject that is present |
| AlertRules.ConditionExactly | internal/alerter/alerter.go:145-313 | A subject's check holds exactly when its condition does: a node's CPU or memory share of 100 is at least the threshold, a guest's status is not `running`, a backup is older than allowed, a disk's health is `FAILED` or bit 1 is set, bit 2 or bit 4 is set, a datastore of known size is used to the threshold, it has an error |
| AlertRules.CheckAnnounces | internal/alerter/alerter.go:153-309 | The alert type, severity, instance and subject every alert names |
| AlertRules.FiredHolds | internal/alerter/alerter.go:145-346 | No alert is raised for a subject that is absent or whose condition does not hold |
| AlertRules.InstantFiresExactly | internal/alerter/alerter.go:219-313 | A backup, disk or datastore alert is raised exactly when its condition holds and no alert of it was raised within the cooldown and six hours |
| AlertRules.DefaultsExactly | internal/alerter/alerter.go:56-77 | The conditions, severities and cooldowns of every subject under the default configuration, in figures |
| AlertRules.DefaultWindows | internal/alerter/alerter.go:56-77 | By default, evaluated every 30 seconds, node alerts come within 66 minutes and guest alerts within 33 |
| AlertRules.RulesGcUnobservable | internal/alerter/alerter.go:219-313 | With cooldowns of at most 6 h + 1 ns, as in the defaults, the backup, disk and datastore alerts are the same with and without garbage collection, in every run and whatever the names |
| AlertRules.RulesAreSpaced | internal/alerter/alerter.go:145-313 | In every run and whatever the names, two alerts with one key are at least the cooldown of the rule the key belongs to, or more than six hours, apart |
| AlertRules.RuleResponds | internal/alerter/alerter.go:145-217 | A node or guest whose condition holds throughout a window raises its alert within it, by the names of its own rule alone; for guests any names will do |
| AlertRules.RuleIsSound | internal/alerter/alerter.go:145-217 | A node's or guest's alert is raised only if its own condition held at an evaluation at least the duration earlier and was never seen clear since |
| AlertRules.LongRuleNeverFires | internal/alerter/alerter.go:132-136 | A node or guest rule with a duration above six hours never raises an alert, whatever the names |
| AlertRules.AbsentChangesNothing | internal/alerter/alerter.go:166-217 | An evaluation in which the node or guest is absent, or the memory total is 0, sends nothing for it and changes its slot only by `cleanup` |
| AlertEngine.EffectsLayout | internal/alerter/alerter.go:334-346 | The firings account for the effects one to one, in order: each for one store attempt, then one send per provider, and there is nothing else |
| AlertEngine.Alerter.constructor | internal/alerter/alerter.go:95-105 | A new alerter has an empty run behind it |
| AlertEngine.Alerter.Cleanup | internal/alerter/alerter.go:125-137 | Both maps lose exactly the entries more than six hours old |
| AlertEngine.Alerter.Fire | internal/alerter/alerter.go:330-346 | Within the cooldown nothing happens; otherwise the time is kept and one store attempt and one send per provider follow, whatever errors come back |
| AlertEngine.Alerter.CheckSustained | internal/alerter/alerter.go:316-328 | The timer is seeded, read or deleted, and the alert fired, as the transition function says |
| AlertEngine.Alerter.EvaluateNodes | internal/alerter/alerter.go:145-185 | The node loops check every node's CPU, and its memory when a total is known, each exactly once |
| AlertEngine.Alerter.EvaluateGuests | internal/alerter/alerter.go:187-217 | The guest loops check every guest exactly once |
| AlertEngine.Alerter.EvaluateBackups | internal/alerter/alerter.go:219-242 | The backup loops check every entry exactly once |
| AlertEngine.Alerter.EvaluateDisks | internal/alerter/alerter.go:244-277 | The disk loop makes both checks of every disk exactly once |
| AlertEngine.Alerter.EvaluateDatastores | internal/alerter/alerter.go:279-313 | The datastore loops make both checks of every datastore exactly once |
| AlertEngine.Alerter.Evaluate | internal/alerter/alerter.go:139-314 | One evaluation extends the run by one round over the tick: maps, notifications and outside effects are those of the run |
| AlertEngine.Alerter.Run | internal/alerter/alerter.go:108-123 | The ticker loop executes a run of all its ticks |
| AlertEngine.Alerter.AlertsAreSpaced | internal/alerter/alerter.go:139-346 | Two alerts an alerter raised with one key are at least the rule's cooldown, or more than six hours, apart, whatever its ticks and errors were |
| AlertEngine.Alerter.AlertsGoOut | internal/alerter/alerter.go:330-346 | All an alerter did outside is one store attempt and one send per provider for each alert it raised |
| AlertEngine.Alerter.AlertIsRaised | internal/alerter/alerter.go:139-346 | A node or guest whose condition, as it stands in the snapshots, held throughout a window has its alert in the log within the window, of a tick where the condition held and naming it |
| AlertEngine.Alerter.InstantAlertIsRaised | internal/alerter/alerter.go:219-346 | A backup, disk or datastore whose condition held at a tick has its alert in the log, of that tick or of one within the cooldown before |
| AlertEngine.Alerter.AlertIsDeserved | internal/alerter/alerter.go:139-346 | An alerter raised a subject's alert only at a tick where its condition held, and a node's or guest's only after it had been seen to hold for the duration and never clear since; the alert names the subject as it was at that tick |
| PollPool.PoolSafety | internal/collector/collector.go:30-41 | In every reachable state the held slots are the workers that hold one, at most the capacity, and each WaitGroup counts its poll's unfinished workers and its pending submission |
| PollPool.RunsAreBounded | internal/collector/pve.go:91-143 | Every run, cancellations included, has at most a number of steps known from the start |
| PollPool.Progress | internal/collector/collector.go:30-41 | With at least one slot, some step other than a cancellation is enabled until all polls have returned |
| PollPool.RunsEndReturned | internal/collector/pve.go:91-143 | A run that can go no further has all polls returned and all slots free |
| PollPool.AllOrNothing | internal/collector/pve.go:98-156 | A poll stopped by cancellation has written nothing and stamped no disk poll; whatever is written is a prefix of the complete publication, which is whole once the poll returns |
| PollPool.RefusalIsEnabled | internal/collector/collector.go:30-41 | A pending submission of a cancelled poll can be refused, with or without a free slot, and can be accepted with one |
| PollPool.CancelledRun | internal/collector/collector.go:38-39 | Over any pool a poll of some node can be cancelled and end in an error |
| PollPool.JoinedIsComplete | internal/collector/pve.go:94-143 | Once joined, the node map has exactly the nodes whose status call succeeded, and the guests and disks are exactly those in their successful container, machine and disk lists |
| PollPool.CompletedWrites | internal/collector/pve.go:94-156 | A completed poll wrote each node's part of the results laid over each other in the order the workers merged, every worker with an answer in the order once |
| PollPool.ScheduleIndependence | internal/collector/pve.go:94-156 | All completed interleavings of the same answers publish under the same keys, and the same values when what the nodes give for shared keys agrees |
| PollPool.SettledPublishesAlike | internal/collector/pve.go:94-156 | With such answers any two completed runs write the same to the cache, over any pools and beside any other polls |
| PollPool.GuestPartExactly | internal/collector/pve.go:422-442 | A node gives the VMIDs in its successful lists, for each the last machine with it or, if no machine has it, the last container |
| PollPool.DiskPartExactly | internal/collector/pve.go:126-136 | A node gives the WWNs of its successful disk list when disks are due, for each the last disk with it |
| PollPool.LastMergerWins | internal/collector/pve.go:119-123 | In every run the VMIDs published are those some node lists, each with the guest given by the node whose worker merged last among those that list it |
| PollPool.AnyoneLast | internal/collector/collector.go:30-41 | For all answers, any worker with an answer can be the last to merge in a completed run |
| PollPool.ScheduleShowsExactly | internal/collector/pve.go:94-156 | All completed runs with the same answers write the same if and only if what each two nodes give for a node name, VMID or WWN they share agrees |
| CacheReplay.LastWriteWins | internal/cache/cache.go:130-181 | Guests, datastores, backups, tasks and poll times are those of the last write of their part |
| CacheReplay.NeverWritten | internal/cache/cache.go:36-46 | What was never written is not there |
| CacheReplay.NodesAndTemperatures | internal/cache/cache.go:123-174 | An instance has the nodes of its last update, each with the temperature written last since then, else the one the update carried |
| CacheReplay.DisksAccumulate | internal/cache/cache.go:138-142 | A disk holds what the last update naming it brought |
| CacheReplay.DisksStay | internal/cache/cache.go:138-142 | No disk ever disappears |
| SnapshotCache.Cache.constructor | internal/cache/cache.go:36-46 | A new cache is the replay of no writes |
| SnapshotCache.ViewExactly | internal/cache/cache.go:12-33 | The view of the cache or of a snapshot is made of the values of all its maps |
| SnapshotCache.NestedExactly | internal/cache/cache.go:12-33 | The value of each node, guest, datastore and backup is what its cell holds |
| SnapshotCache.DisksExactly | internal/cache/cache.go:12-33 | The value of each disk is its own fields with the attributes its slice holds |
| SnapshotCache.TasksExactly | internal/cache/cache.go:12-33 | The value of each task is what its cell holds, in the order of the list |
| SnapshotCache.CopyDisk | internal/cache/cache.go:81-88 | A copied disk and its attribute slice are new, and hold the same |
| SnapshotCache.Cache.Snapshot | internal/cache/cache.go:49-120 | The snapshot's nodes, guests, disks, datastores, backups, tasks and attribute slices are all new, and hold what the cache holds |
| SnapshotCache.Cache.UpdateNodes | internal/cache/cache.go:123-127 | The instance's nodes are replaced, and the cache stays the replay of its history |
| SnapshotCache.Cache.UpdateGuests | internal/cache/cache.go:130-134 | The same for a cluster's guests |
| SnapshotCache.Cache.UpdateDisks | internal/cache/cache.go:138-142 | The disks are merged over those filed, and the cache stays the replay of its history |
| SnapshotCache.Cache.UpdateDatastores | internal/cache/cache.go:145-149 | The same for an instance's datastores |
| SnapshotCache.Cache.UpdateBackups | internal/cache/cache.go:152-156 | The same for an instance's backups |
| SnapshotCache.Cache.UpdateTasks | internal/cache/cache.go:159-163 | The same for an instance's tasks |
| SnapshotCache.Cache.UpdateNodeTemperature | internal/cache/cache.go:166-174 | The write through the filed pointer changes that one node's temperature and nothing else the cache holds |
| SnapshotCache.Cache.SetLastPollTime | internal/cache/cache.go:177-181 | The collector's poll time is replaced, and the cache stays the replay of its history |
| SnapshotCache.SnapshotSurvives | internal/cache/cache.go:49-174 | No sequence of later updates, temperature writes and writes to attribute slices of cached disks changes a snapshot |
| BackupIndex.KeepLatest | internal/collector/pbs.go:107-124 | Over the datastores in any order, each group of the fetched snapshots is kept by a latest one, and nothing else is kept; where a key stands for one backup it is the first of the latest |
| BackupIndex.KeepLatestOf | internal/collector/pbs.go:118-123 | The inner loop adds one datastore's snapshots to the index, and leaves the groups it does not name alone |
| BackupIndex.IndexUnique | internal/collector/pbs.go:109-124 | The order in which the datastores are visited does not show in the index |
| BackupIndex.OneGuestPerBackup | templates/helpers.go:301-303 | A backup id matches at most one non-negative VMID |
| BackupIndex.SharedIdsExactly | templates/helpers.go:301-303 | Two numbers have matching backup ids in common if and only if they are equal or opposite |
| BackupIndex.BackupsForGuest | templates/helpers.go:284-296 | The list has the entries that match the VMID, as many as are filed, by descending time |
| BackupIndex.LatestBackupTime | templates/helpers.go:316-322 | The greatest time of the entries that match, 0 if none does |
| BackupIndex.WidgetBackups | internal/api/handlers.go:471-479 | The widget counts every entry and gives the greatest time, at least 0 |
| BackupIndex.LatestLikeRaw | templates/helpers.go:316-322 | With datastore names that do not nest, or backup ids without a slash, a guest's latest backup is the same over the kept entries and over all fetched snapshots |
| BackupIndex.LastLikeRaw | internal/api/handlers.go:471-479 | The widget's newest backup is that of all fetched snapshots, whatever the names |
| BackupIndex.StaleLikeRaw | internal/alerter/alerter.go:219-226 | A stale alert's condition holds if and only if every fetched snapshot of its group is too old |
| BackupIndex.TellsExactly | internal/collector/pbs.go:119-121 | With any backup ids, the kept entries give every guest the latest backup of all fetched snapshots if and only if the datastore names do not nest |
| BackupIndex.HiddenBackup | internal/collector/pbs.go:119-121 | Under any two nested datastore names one guest's backup can be hidden behind another's |
| SmartText.ParseNvmeValue | internal/smart/nvme.go:88-121 | The digit scan returns the number at the start of the text, commas dropped, the number in base 16 after `0x`, and 0 when there is none or it is out of range |
| SmartText.ParseNvmeText | internal/smart/nvme.go:45-84 | The loop returns the attributes of the lines with a known label, in order, and an error if there are none |
| SmartText.LabelIds | internal/smart/nvme.go:26-40 | The ten labels and their IDs 1 to 10 |
| SmartText.KnownLines | internal/smart/nvme.go:49-69 | A line is read exactly when it has a colon behind one of the ten labels, lowered and trimmed |
| Text.LowerOfAnyCase | internal/smart/nvme.go:64 | A label printed in any mixture of cases is lowered to the label |
| SmartText.HexRoundTrip | internal/smart/nvme.go:95-101 | A number printed in base 16 after `0x` is read back, beyond 64 bits as 0 |
| SmartText.BadHexIsZero | internal/smart/nvme.go:95-101 | Anything but digits in base 16 after `0x`, a leading sign excepted, is read as 0 |
| SmartText.UnreadableIsZero | internal/smart/nvme.go:89-113 | A value that starts with neither a digit nor a comma is read as 0 |
| Text.AtoiExactly | internal/smart/scsi.go:56-76 | Hours are read exactly from digits, one or more, with at most a sign before them, when they fit 64 bits |
| Text.ParseDigitsExactly | internal/smart/scsi.go:106-110 | A run of digits is read exactly when it is not empty and its number fits 64 bits |
| SmartText.ExtractIntAfterColon | internal/smart/scsi.go:95-111 | The digit scan returns the number after the last colon, if there is one in range |
| SmartText.ParseScsiText | internal/smart/scsi.go:24-91 | The loop returns the attributes of all lines, in order |
| SmartText.ScsiNonNegative | internal/smart/scsi.go:36-86 | SCSI values are never negative and fit 64 bits |
| SmartText.ParsingJoined | internal/smart/nvme.go:45-84 | Both parsers turn two texts joined by a newline into the attributes of the one followed by those of the other |
| SmartText.HoursText | templates/helpers.go:436-444 | Displayed hours are their decimal digits, from 1000 up with one comma, three places from the right |
| SmartText.HoursRoundTrip | templates/helpers.go:436-444 | Displayed hours are read back by `parseNVMeValue`, for every non-negative int64 |
| SmartText.FieldRoundTrip | internal/smart/nvme.go:49-76 | A field printed with any case of one of the ten labels, blanks, a comma-grouped value of 63 bits and a unit is read back with the label's ID from 1 to 10 |
| SmartText.NvmeRoundTrip | internal/smart/nvme.go:45-84 | Printing any list of such fields and parsing it returns their IDs and values in order |
| ScsiReport.TemperatureRead | internal/smart/scsi.go:36-46 | A printed temperature line is read as the number behind its last colon, whatever unit follows |
| ScsiReport.HoursRead | internal/smart/scsi.go:49-66 | Printed hours are read without their fraction and commas |
| ScsiReport.MinutesRead | internal/smart/scsi.go:70-87 | Hours and minutes are read as the hours |
| ScsiReport.ScsiRoundTrip | internal/smart/scsi.go:24-91 | Printing any list of such lines and parsing it returns their temperatures and hours in order |
| SmartRisk.FindBucket | internal/smart/thresholds.go:155-163 | The bucket returned is the first that has the value, and none is returned only if no bucket has it |
| SmartRisk.BucketExists | internal/smart/thresholds.go:155-163 | A gap-free ascending list has a bucket for every value it spans |
| SmartRisk.RateIsMonotone | internal/smart/thresholds.go:155-163 | In such a list, with rates that do not fall, first match gives rates that do not fall |
| SmartRisk.RateIsCut | internal/smart/thresholds.go:155-163 | The upper bound of a bucket decides on which side of it the rate of a value is |
| SmartRisk.TableAscends | internal/smart/thresholds.go:20-129 | Every entry of the table is such a list, from 0 to 2^62 - 1 |
| SmartRisk.VerdictByLimit | internal/smart/evaluate.go:9-57 | The verdict on every attribute, with the twelve IDs written out and their limits: status 1 at or below the manufacturer's threshold; critical IDs 4 above the limit and 2 outside the buckets; the others 2 above the limit; 0 for all else |
| SmartRisk.RateWritten | internal/smart/evaluate.go:28-34 | The failure rate written, by ID and range of raw values; it is left alone without a bucket and on a manufacturer's failure |
| SmartRisk.StepExists | internal/smart/thresholds.go:20-129 | The ranges leave out no raw value from 0 to 2^62 - 1 |
| SmartRisk.SeverityIsMonotone | internal/smart/evaluate.go:9-57 | An attribute's severity never drops as its raw value grows from 0 to 2^62 - 1 |
| SmartRisk.SeverityDropsExactly | internal/smart/evaluate.go:9-57 | Between any two raw values the severity drops if and only if the attribute is in the table and not failed by its manufacturer, and the value enters the passing range of a critical one from below 0 or leaves 2^62 - 1 from above the limit |
| SmartRisk.JudgeIsStable | internal/smart/evaluate.go:9-57 | The verdict does not depend on an earlier one, and only the status and rate are written |
| SmartRisk.OrAllBits | internal/smart/evaluate.go:62-70 | A bit of a disk's status is set if and only if some attribute has it |
| SmartRisk.StatusIgnoresOrder | internal/smart/evaluate.go:62-70 | The status depends on which attribute statuses occur, not on their order or number |
| SmartCollect.ParseRows | internal/smart/ata.go:14-26 | The loop returns all the rows decoded, or an error at the first that does not decode |
| SmartCollect.DecodedExactly | internal/smart/ata.go:14-26 | The table decodes if and only if each row does, to as many attributes in the same order |
| SmartCollect.EvaluateAttribute | internal/smart/evaluate.go:9-57 | The element is replaced by its verdict, the others are untouched, and the status written is returned |
| SmartCollect.EvaluateAll | internal/smart/evaluate.go:62-70 | Every element is judged in place, and the statuses are summed up |
| SmartCollect.Drive.Evaluate | internal/smart/evaluate.go:62-70 | The disk's attributes are judged and its status is their sum; nothing else changes |
| SmartCollect.Drive.Extract | internal/collector/pve.go:685-724 | The loop writes the three scalar readings and nothing else |
| SmartCollect.TemperatureChoice | internal/collector/pve.go:705-722 | A disk that is not NVMe takes the last attribute 194 or 300, and without one the first 190, wherever it stands |
| SmartCollect.ChosenTemperatureIsUnique | internal/collector/pve.go:705-722 | That rule leaves only one reading |
| SmartCollect.NvmeTemperature | internal/collector/pve.go:690-692 | An NVMe disk takes the last temperature field |
| SmartCollect.HoursChoice | internal/collector/pve.go:693-721 | The hours are those of the last attribute that has them, by protocol |
| SmartCollect.WearoutChoice | internal/collector/pve.go:696-700 | Wear from the server stands; otherwise 100 less the first percentage used |
| SmartCollect.Drive.CollectSmart | internal/collector/pve.go:595-727 | The recursive requests leave the disk, the list of requests and the error as the cascade says |
| SmartCollect.RequestsInOrder | internal/collector/pve.go:595-680 | At most three requests, with no type, `sat` and `scsi` in this order, against any server, and exactly when the second and the third are made |
| SmartCollect.FailsExactly | internal/collector/pve.go:600-629 | The outcome is an error if and only if the last request got no usable answer and was not a `scsi` request answered with 400 |
| SmartCollect.CascadeVerdict | internal/collector/pve.go:682-683 | A usable last answer leaves evaluated attributes with their summed status; without one both are untouched |
| SmartCollect.CollectedVerdict | internal/collector/pve.go:562-583 | A collected disk keeps its identity and path, and has status 16 if and only if its requests failed, and then no attributes; otherwise its status is the sum of its attributes' verdicts |
| SmartCollect.CollectedTemperature | internal/collector/pve.go:685-724 | The temperature of a collected disk that is not NVMe follows from the attributes it ends with |
| SmartOutcome.CascadeEnds | internal/collector/pve.go:595-683 | The cascade leaves the health and wear of its answers, and the attributes the last one gives: those of an NVMe text, of a table that decodes, of a SCSI text, or none |
| SmartOutcome.IdentityExactly | internal/collector/pve.go:534-540 | The identity is the WWN, or else the serial number, or else the path, where empty, `unknown`, `none` and `-` say nothing |
| SmartOutcome.CollectedExactly | internal/collector/pve.go:528-724 | What a listed disk ends with against any server, in terms of the listing and the answers alone: identity, protocol, health, attributes, temperature, hours and wear |
| SmartOutcome.NvmeFromText | internal/collector/pve.go:656-704 | The temperature and hours of an NVMe disk are the last values printed as Temperature and as Power On Hours in the server's text |
| SmartCollect.NvmeWearIsJudgedAsSectors | internal/smart/evaluate.go:9-22 | An NVMe disk passes up to 16 percent used and fails above, by the entry for reallocated sectors |
| SmartCollect.PublishedExactly | internal/collector/pve.go:528-588 | The disks returned are exactly those of the listed ones with an identity |
| SmartCollect.CollectDisk | internal/collector/pve.go:562-581 | A new disk is collected, and marked with status 16 on an error |
| SmartCollect.CollectDisks | internal/collector/pve.go:528-588 | The loop collects the disks with an identity in the order of the list |
| Display.FormatBytes | templates/helpers.go:25-37 | For every int64 from 1024 the loop ends with a divisor 1024^(e+1) that fits the count at least once and less than 1024 times, and a unit in range; no product overflows |
| Display.SeventhPowerOverflows | templates/helpers.go:35 | No int64 can need a unit beyond the sixth |
| Display.UnitsAreMonotone | templates/helpers.go:30-36 | The unit never shrinks as the count grows, and a count has only one |

## Left out

- Floating point: percentages and temperatures are exact reals, failure rates integers; rounding and the printed digits are not modelled.
- Notification titles, messages and metadata, and the formatting of ages and sizes beyond the unit.
- `time.Since` and `time.Sub` saturate after about 292 years; times here are unbounded.
- AlertRuns.BoundedResponse: negative durations and cooldowns are left out, and a zero duration together with a zero gap, where the only evaluation of a window may be the one that seeds the timer.
- AlertRules.KeysInjective: entities are taken to be filed under their own names, as the collectors file them.
- AlertRules.RuleResponds: like the other lemmas that follow one subject through a run it takes the subject's key to be its own, since subjects that share a key share a timer. This asks nothing of the names of other rules.
- WalkOrder.OrderShowsExactly: with a backup cooldown of zero or less, which sends every stale backup at every evaluation, only the half from names that do not nest is stated, by WalkOrder.WalksAgree.
- PollPool: the requests of a worker always return, each merge under the mutex is one step, and the store writes of a poll are not modelled. The poll is a transition system, not a class, because its steps interleave with those of others. Node discovery and cluster detection before the fan-out are left out.
- SnapshotCache.Cache.UpdateNodes: the replay needs the nodes handed over to be filed nowhere else, which the collectors meet by making new ones for each poll.
- SnapshotCache: the inner maps handed over are values, so that a collector that kept writing to its map after handing it over is not modelled; none does. Pointers to scalars that are replaced but never written through are values. The attribute slice of a filed disk is set once.
- The locks of the cache: each method is one step.
- BackupIndex.SortByTime: stands for `sort.Slice`, whose own algorithm is not modelled; the order of equal times is open.
- The names and printed raw values of attributes, which nothing here decides on, and the `any`-typed fields of ATA rows: rows and wear values come decoded or not at all.
- SmartText: lower-casing beyond ASCII is kept to the two letters that become ASCII ones. No claim is made on the sign of values after `0x`, which may be negative.
- SmartCollect: the requests of a disk get arbitrary answers, a new one for each; timeouts and HTTP are not modelled. Disk type, size and serial numbers are left out.
- `FormatUptime`, `FormatDuration`, the CSS classes and the other counts of the widget: single-branch members.
- `SparklinePolyline`: it would add only an easy member over exact reals.
- The store's SQL, the notification providers, the configuration and its environment overrides, HTTP, SSH, the sensors that feed temperatures, templates and scripts.
