# Verified model of the NIFCLOUD NAS CSI driver controller

The driver provisions Kubernetes volumes on NAS instances. This project models the parts of its controller
where several calls, several requests and a cloud that answers late have to fit together, and proves what
they achieve over every input and every run:

- **Shared instances.** Volumes are packed first-fit on at most ten NAS instances, which the driver knows
  only by name prefixes and by text search in volume handles. In every run the volumes on an instance never
  add up to more than it holds (`SharedNas`, `SharedCreate`), and the instance is deleted exactly once, with
  its last volume (`SharedDelete`). Both rest on the queue that lets one request at a time through
  (`ResourceQueue`, `InFlight`) and on the volume handles (`Strings`, `VolumeHandle`).
- **The security group syncer.** It makes one edit per sync and remembers when no work is left. Its edits are
  safe in every run, the edits made plus the entries still wrong are constant, and its skips are right exactly
  under a stated condition (`Syncer`, `SyncerRuns`).
- **Addresses.** The byte-wise address arithmetic computes on 32-bit values (`Ipv4`, `Arith`), a network is
  divided into a partition, removing blocks in use by splices is a filter (`CidrDivs`, `Filter`,
  `Configurator`), and the allocator finds the least free address (`IPAllocator`).
- **Brackets of CreateVolume.** Under any interleaving of requests, repeated ones included, a name is created
  once, every exit gives up its own name and address and nobody else's, and addresses are unique
  (`CreateVolume`).

Code that updates objects or byte slices in place is modelled by classes, arrays and loops, each proved
against a specification function or predicate. Concurrency is modelled by step systems: a state, the steps of
each request, and whatever the cloud and the API server may do between them. A run is a sequence of states
linked by steps, and main results hold at every position of every run.

## What is relied on

- The check and insertion in `Queue` are one atomic step, and so is `UnsetQueue`; in the source they access
  the map outside the mutex (pkg/driver/utils.go:181-184, 206-210).
- The deferred `UnsetQueue` of a request without a slot does not come upon the request of the same name that
  holds it. Such a deferred call runs some time after `Queue` refused a duplicate
  (pkg/driver/controller.go:302-311, 560-568), and after the failure of a CreateVolume that is not shared. It is
  a step of its own, so the original may be waiting at the refusal and hold the slot at the deferred call.
  `InFlight.StepKeepsInvIff` and `RunKeepsInvIff` prove that exactly these steps break the ownership of slots.
  As a condition on requests: none arrives under a queued name, waiting or holding, and no CreateVolume that is
  not shared, even one that came before the name was queued, fails under such a name.
  `NoRepeatsIsHarmless` proves this sufficient, and `RepeatCanExpose` proves for arrivals that it is necessary
  for every continuation to be safe. `TwoHoldersAfterDuplicate` and `TwoHoldersAfterLateExit` give runs in which two requests hold the slot.
- Capacity (`SharedCreate.Plausible`, `Sized`, `Config.Good`, `Request.Plain`): nine allocation steps, where
  `getAllocatedStorage` saturates, hold each volume, whatever capacityParInstanceGiB is; names are free of '/';
  the text of a shared instance name occurs in a handle only in its instance part; the volume is recorded with
  the capacity and handle of the answer; shared instances are created by this driver only and keep their
  storage. Create and delete have separate queues, so the chosen instance may be deleted before CreateVolume
  looks for it; then it had the storage that this request asks for, or the volumes listed on it leave room on a
  new one. `SharedCreate.NewInstanceFitsIff` proves that these bounds are exact; `OversizedOverfills` gives a
  run for every volume beyond nine steps, and `DeletedInstanceOverfills` one for every pair of volumes that the
  new instance does not hold. Everything else may happen at any point: failures, deletion of
  volumes and of instances, other volumes and instances.
- Deletion (`SharedDelete.Plausible`, `Init`), for the instance in question: its name occurs only in the handles
  of its own volumes, and volume names are unique; no volume is created on it meanwhile; a volume that a request
  names is listed on the instance in the request or not at all (late retries); a volume on it leaves the list
  only after its DeleteVolume was answered; only these requests delete it, and nobody creates it again.
- Deletion and lookups (`SharedDelete.Spares`): DeleteVolume answers with success, without queueing, when the
  instance cannot be looked up for any reason (pkg/driver/controller.go:551-556), so one failed call for the last
  volume leaks the instance. Such an answer has to leave another volume on the instance, and when the request in
  progress there has decided not to delete, one other than its own. `LookupFailsKeepsInvIff` proves that exactly
  this keeps the invariant, `LookupCanLeak` that otherwise a permanent leak can follow from every state, and
  `FailedLookupLeaks` gives the shortest run.
- Unique addresses (`CreateVolume.UpToDate`): the list that an address is picked by still shows every address
  in use that is not pending, which holds when listing and picking are one step. In the source the list is read
  before the lock is taken (pkg/driver/controller.go:505-509); `CreateVolume.PickKeepsAddressesIff` proves that
  the condition is exact, and `StaleListSharesAddress` gives a run with a shared address. That reservations in flight are distinct does not need this. Nobody else creates an
  instance under a name that a request is creating, or with an address that counts as the allocator's.
- The syncer: only it edits the group. It counts an entry that is being revoked as listed
  (pkg/driver/securitygroup_syncer.go:251-256); `SyncerRuns.BeliefIff` and `BelievesOnlyWhenDoneIff` prove
  exactly when that is harmless, and `ReturningNodeLosesEntry` gives a run in which a node stays without entry.

## Model

| member | source | states |
|---|---|---|
| `SharedCreate.CapacityInEveryRun` | pkg/driver/shared_utils.go:42-155 | In every run of shared creates, failures, volume and instance changes, at every moment, the capacities of the volumes on each shared instance sum to at most its storage. |
| `SharedCreate.StepKeepsInv` | pkg/driver/controller.go:283-501 | Each of the fourteen kinds of step keeps the invariant that ties the queue, what the request has read so far, the volume list and the instance list together. |
| `SharedCreate.RunKeepsInv` | pkg/driver/controller.go:283-501 | The invariant holds at every position of every run from lists that fit. |
| `SharedCreate.UndisturbedSearchIsFirstFit` | pkg/driver/shared_utils.go:77-123 | The separate reading steps of a request, when nothing comes between them, choose exactly a place that the loop over one snapshot may choose: the lowest number with room. |
| `SharedCreate.OnMentions` | pkg/driver/shared_utils.go:140-151 | The handle of a volume contains every text that the name of its instance contains, in particular the index prefix that the search looks for. |
| `SharedCreate.MentionsNas` | pkg/driver/shared_utils.go:199-211 | An index prefix found in the handle of a volume of this driver is in the instance part, so the name read from the handle has that prefix. |
| `SharedCreate.ReservedCovers` | pkg/driver/shared_utils.go:127-155 | The bytes counted by text search under a prefix are at least what is on any instance with that prefix. |
| `SharedCreate.ProvisionedFits` | pkg/driver/controller.go:252-280 | An instance that is found with the storage asked for, or created with it, has room for the volume on top of what is on it. |
| `SharedCreate.PlacedSurvives` | pkg/driver/controller.go:364-415 | Room found on the chosen instance survives its deletion when it had the storage that the request asks for. |
| `SharedCreate.RecordedFits` | pkg/driver/controller.go:681-692 | Recording the volume with the handle and capacity of the answer keeps every shared instance within its storage. |
| `SharedCreate.ProvisionMeans` | pkg/driver/controller.go:364-415 | An existing instance is used only with the storage allocated for capacityParInstanceGiB and the type, and one that is missing is created with it. |
| `SharedCreate.PvAppearsMeans` | pkg/driver/controller.go:681-692 | The volume is recorded under its own name with the handle of its instance and the capacity of the request. |
| `SharedCreate.NewInstanceFitsIff` | pkg/driver/controller.go:364-415 | When the chosen instance does not exist, be it new or deleted since it was chosen, creating it and recording the volume keeps every shared instance within its storage if and only if the volume fits beside what is listed on the instance; for a first volume, if and only if nine allocation steps hold it. |
| `SharedCreate.FirstVolumeFitsIff` | pkg/driver/controller.go:185-205 | A volume admitted by the instance size is at most the storage a new instance gets if and only if nine allocation steps hold it. |
| `SharedCreate.OversizedOverfills` | pkg/driver/controller.go:193-202 | Every admitted volume beyond nine steps has a run of the system, from an empty cluster, that ends with its own new instance overfilled. |
| `SharedCreate.OversizedInstanceFallsShort` | pkg/driver/controller.go:193-202 | In particular a run in which 950 GiB are recorded on an instance that was sized for 1000 and got 900. |
| `SharedCreate.DeletedInstanceOverfills` | pkg/driver/controller.go:364-415 | For every listed volume and request that fit together on the chosen instance but not on a new one of the size asked for, a run of the system in which the instance is deleted after it was chosen, created anew, and overfilled. |
| `SharedCreate.RecreatedInstanceFallsShort` | pkg/driver/controller.go:364-415 | In particular a run in which 100 GiB, placed beside 400 on an instance of 500, end beside them on a new one of 100. |
| `SharedNas.GetNasInstanceReservedCap` | pkg/driver/shared_utils.go:128-155 | The loop returns the sum of the capacities of exactly the volumes whose handle contains the name; unreadable capacities count as zero. |
| `SharedNas.NoOtherPvsInSharedNas` | pkg/driver/shared_utils.go:158-187 | Answers iff some volume mentions the instance, and then true iff every volume that mentions it is the given one. |
| `SharedNas.GetSharedNameFromExistingPv` | pkg/driver/shared_utils.go:190-214 | The middle part of the first handle that contains the prefix; an error iff there is none or it does not have three parts. |
| `SharedNas.GetSharedNameFromExistingNas` | pkg/driver/shared_utils.go:217-229 | True iff some instance contains the prefix and is not being deleted, and then the name of the first such; else the prefix itself. |
| `SharedNas.TryInstance` | pkg/driver/shared_utils.go:83-117 | For one instance number: an error iff its entry is unreadable, whether the volume fits, and the name to use if it does. |
| `SharedNas.FindPlace` | pkg/driver/shared_utils.go:77-123 | First fit: the name belongs to the lowest number in 1 to 10 that is unreserved or has room, and all lower numbers are in use and too full; otherwise there is no place. |
| `SharedNas.PlaceIsUnique` | pkg/driver/shared_utils.go:77-123 | The place and the name are determined by the lists, and a place and a refusal exclude each other. |
| `SharedNas.RefusedOnlyWhenFull` | pkg/driver/shared_utils.go:118-120 | When all lookups succeed, refusal happens iff all ten instances are reserved and none has room. |
| `SharedNas.IndexTextIs` | pkg/driver/shared_utils.go:82 | The text of number i is three decimal digits with the value i. |
| `SharedNas.IndexPrefixIs` | pkg/driver/shared_utils.go:79-82 | The name prefix is the literal text around the cluster ID, the instance type and these digits. |
| `SharedNas.PrefixesApart` | pkg/driver/shared_utils.go:82 | The prefix of one number is never found in that of another number of the same instance type. |
| `SharedNas.PrefixesOfTypesMeet` | pkg/driver/shared_utils.go:79-82 | But that of number 1 without a type is found in that of number 10 of type 0. |
| `SharedNas.ReservedCapIs` | pkg/driver/shared_utils.go:138-151 | A volume adds its capacity to what is reserved iff its handle contains the name and its capacity can be read. |
| `SharedNas.SlotMeans` | pkg/driver/shared_utils.go:83-117 | When a number counts as unreserved, as unreadable, and as having how many free bytes on which instance. |
| `SharedNas.PlacedMeans` | pkg/driver/shared_utils.go:77-123 | First fit in terms of the lists: all lower numbers are reserved and too full; the instance is that of the first mentioning volume and has the room, or, for an unreserved number, the first instance of that name that is not being deleted, or a new name. |
| `SharedNas.ConvertSharedRequest` | pkg/driver/shared_utils.go:42-124 | Requests that are not shared keep their name and get at least the minimum; shared ones get the first-fit place and the instance size, and fail only for a bad parameter, a missing UID, a volume above the instance size, or no place. |
| `Capacity.RequestCapacity` | pkg/driver/controller.go:638-662 | Never above the limit, never below the requirement or the minimum unless the limit is, never above both of these; and a limit alone is granted. |
| `Capacity.GetAllocatedStorage` | pkg/driver/controller.go:185-205 | The least number of allocation steps that covers the size, saturated at nine, with steps of 1000 GiB for type 1 and of 100 for others. |
| `Capacity.AllocationCovers` | pkg/driver/controller.go:193-202 | The allocation covers the size iff nine steps do. |
| `Capacity.AllocationIsUnique` | pkg/driver/controller.go:185-205 | That specification determines the allocation. |
| `Capacity.AllocationMeans` | pkg/driver/controller.go:185-205 | In GiB: for type 1 the least of 1000 to 9000 that covers, else 9000; for other types the least of 100 to 900, else 900. |
| `SharedDelete.DeletedOnlyWithLastVolume` | pkg/driver/controller.go:575-590 | In every run, whenever a request is about to call DeleteNasInstance, whether the call then succeeds or not, the instance exists and the volume of the request is on it and is the only one. |
| `SharedDelete.DeletedExactlyOnce` | pkg/driver/controller.go:541-593 | In every run in which failed lookups spare the instance, and in every order of deletion, DeleteNasInstance succeeds at most once, the instance exists iff it has not, and once no volume is left it has succeeded exactly once. |
| `SharedDelete.LookupFailsKeepsInvIff` | pkg/driver/controller.go:551-556 | Letting a volume go because its instance could not be looked up keeps the invariant if and only if another volume is left on the instance, and one other than that of a request that has decided not to delete it. |
| `SharedDelete.LookupCanLeak` | pkg/driver/controller.go:551-556 | From every state of the invariant, a failed lookup that does not spare the instance has a continuation to an instance without volumes that no request will delete. |
| `SharedDelete.LeakIsForever` | pkg/driver/controller.go:541-593 | Nothing that can follow such a leak deletes the instance. |
| `SharedDelete.FailedLookupLeaks` | pkg/driver/controller.go:551-556 | A run, for any instance and its only volume, in which one failed lookup leaks the instance. |
| `SharedDelete.StepKeepsInv` | pkg/driver/controller.go:541-593 | Each step of deletes, lookups, volume events and outside changes keeps the invariant behind both results. |
| `SharedDelete.RunKeepsInv` | pkg/driver/controller.go:541-593 | The invariant holds at every position of every run. |
| `InFlight.InFlightExclusion` | pkg/driver/controller.go:301-321 | In every interleaving of harmless steps at most one call is past the lock while one lies between the return of Queue and its volume event or error exit; the slot is kept through all other steps and freed by both. |
| `InFlight.StepKeepsInv` | pkg/driver/controller.go:94-116 | Each step keeps the one-to-one match between queued calls and queue entries, the deferred calls of refused and of unshared requests included, as long as their name does not hold the slot when they run. |
| `InFlight.StepKeepsInvIff` | pkg/driver/controller.go:302-311 | A step keeps that match if and only if it is not a deferred UnsetQueue, of a call without a slot, under the name that holds the slot at that time. |
| `InFlight.RunKeepsInvIff` | pkg/driver/controller.go:302-311 | A run keeps that match at every position if and only if all its steps are such. |
| `InFlight.NoRepeatsIsHarmless` | pkg/driver/utils.go:180-184 | When no request comes under a queued name, nothing is ever refused and every step is harmless. |
| `InFlight.RepeatCanExpose` | pkg/driver/controller.go:302-311 | From every state, an arrival under any queued name, waiting or holding, has a continuation in which the slot is freed under the call of that name. |
| `InFlight.LateUnsetFreesSlot` | pkg/driver/controller.go:560-568 | The deferred UnsetQueue of a refused or unshared request, under the holding name, frees the slot although the holding call goes on. |
| `InFlight.TwoHoldersAfterDuplicate` | pkg/driver/controller.go:302-306 | A run, for any two names, in which a repeat of the holding name is refused and two calls hold the slot at once. |
| `InFlight.TwoHoldersAfterLateExit` | pkg/driver/controller.go:302-311 | The same after the repeat of a name that was only waiting when the repeat was refused. |
| `InFlight.HoldingStep` | pkg/driver/controller.go:94-104 | A holding call loses the slot by its own exit and its own volume event, and by no other step. |
| `InFlight.AtMostOneActive` | pkg/driver/utils.go:180-188 | Under the invariant two calls past the lock are the same call, and the mutex is held. |
| `ResourceQueue.MutexDiscipline` | pkg/driver/utils.go:180-212 | In every run, duplicate calls included: the mutex is held iff one name operates or one caller has it but has not marked yet, at most one name operates, Unlock is never called on a free mutex, and a pending name is never removed. |
| `ResourceQueue.StepKeepsInv` | pkg/driver/utils.go:180-212 | Each step of each caller keeps the discipline. |
| `ResourceQueue.OperateResourceQueue.CheckAndInsert` | pkg/driver/utils.go:181-184 | A queued name is refused and nothing changes; another becomes pending; the discipline is kept. |
| `ResourceQueue.OperateResourceQueue.LockReturns` | pkg/driver/utils.go:185 | One waiting caller gets the free mutex; the discipline is kept. |
| `ResourceQueue.OperateResourceQueue.MarkOperating` | pkg/driver/utils.go:186 | The name of that caller operates; the discipline is kept. |
| `ResourceQueue.OperateResourceQueue.UnsetQueue` | pkg/driver/utils.go:205-212 | Frees the mutex and the name iff the name operates, and the mutex is held then; otherwise nothing changes. |
| `VolumeHandle.HandleRoundTrip` | pkg/driver/controller.go:681-701 | For slash-free names, printing a handle and parsing it as DeleteVolume does recovers the instance and the volume. |
| `VolumeHandle.HandleText` | pkg/driver/controller.go:681-701 | A handle is the region, the instance and, if shared, the volume, with slashes between. |
| `VolumeHandle.ParsedHandleIsPrinted` | pkg/driver/controller.go:544-551 | A handle parses iff it has two or three parts, and then it is the print of what it parses to. |
| `VolumeHandle.HandleInjective` | pkg/cloud/cloud.go:179-194 | Printing is injective; shared and other handles never collide. |
| `VolumeHandle.HandleSplits` | pkg/driver/shared_utils.go:204-208 | Splitting a printed handle gives its parts, so the second token is the instance. |
| `VolumeHandle.ContainsInHandle` | pkg/driver/shared_utils.go:142 | A slash-free text is found in a handle iff it is in one of its parts. |
| `Syncer.NSGSyncer.SyncNasSecurityGroups` | pkg/driver/securitygroup_syncer.go:82-310 | The whole effect of a sync on memory and group, and exactly when it reports an error: stop, remember, create, restore once, then at most one edit. |
| `Syncer.StopsIff` | pkg/driver/securitygroup_syncer.go:88-163 | A sync goes on iff its inputs can be read and there is a task, a cloud check is due, or the internal check is due and nodes or group changed. |
| `Syncer.SyncWithReason` | pkg/driver/securitygroup_syncer.go:165-309 | Then, with the group got or created: only over authorized entries, the address of a node followed by /32 that no entry has is authorized, or, when all nodes have entries, one that no node has is revoked; over a settled group there is no edit iff group and nodes agree; the task is set iff they do not. |
| `Syncer.SyncWithoutGroup` | pkg/driver/securitygroup_syncer.go:165-236 | Without reason nothing happens; when the group cannot be got or created, or names not restored, only the inputs are noted. |
| `Syncer.CloudCheckFinds` | pkg/driver/securitygroup_syncer.go:148 | When the cloud check is due, every difference in a settled group is found, whatever the memory says. |
| `Syncer.FailsIff` | pkg/driver/securitygroup_syncer.go:82-310 | A sync reports an error iff it needed something that it did not get. |
| `Syncer.TargetIs` | pkg/driver/securitygroup_syncer.go:250 | The entries that nodes need are their addresses followed by /32. |
| `Syncer.AgreeIff` | pkg/driver/securitygroup_syncer.go:247-307 | Group and nodes agree, entry by entry, iff the group lists exactly these. |
| `Syncer.NSGSyncer.InternalCheck` | pkg/driver/securitygroup_syncer.go:84-163 | Stops exactly when nothing is due, inputs cannot be read, or nothing changed and no work is left; otherwise remembers the nodes and sets the task when they changed. |
| `Syncer.NSGSyncer.PrepareGroup` | pkg/driver/securitygroup_syncer.go:169-236 | Succeeds iff the group could be got or created and, the first time only, names could be restored; a missing group starts empty. |
| `Syncer.NSGSyncer.Reconcile` | pkg/driver/securitygroup_syncer.go:238-309 | Authorizes a missing entry, or if none is missing revokes an extra one, in an editable group only; the task is cleared iff the group lists exactly the nodes. |
| `Syncer.FindMissing` | pkg/driver/securitygroup_syncer.go:247-256 | Finds a node without entry iff there is one, in whatever order the nodes come. |
| `Syncer.FindExtra` | pkg/driver/securitygroup_syncer.go:275-284 | Finds the first entry without node iff there is one. |
| `Syncer.IsEditable` | pkg/driver/securitygroup_syncer.go:238-245 | True iff every entry is authorized. |
| `SyncerRuns.EditsAreSafe` | pkg/driver/securitygroup_syncer.go:238-304 | In every run, against a cloud that settles at any time: no entry twice, at most one in transition, no node of the sync is revoked, and a revoke is issued only when every node is listed and every entry is authorized. |
| `SyncerRuns.EditsWaitForSettling` | pkg/driver/securitygroup_syncer.go:238-245 | After an edit that the cloud accepts, the next sync makes none unless the cloud has settled in between. |
| `SyncerRuns.BeliefIff` | pkg/driver/securitygroup_syncer.go:247-307 | In every run, while no work is believed left, the settled group is that of the last nodes iff nothing was being revoked when that belief was formed. |
| `SyncerRuns.SkipIsSoundIff` | pkg/driver/securitygroup_syncer.go:145-163 | In every run, a sync skipped by the internal check over a settled group would have made no edit iff nothing was being revoked when the belief was formed. |
| `SyncerRuns.ReturningNodeLosesEntry` | pkg/driver/securitygroup_syncer.go:247-256 | A run, for any address, in which a node that returns during its revocation ends without entry and the syncer skips. |
| `SyncerRuns.EditsPlusGap` | pkg/driver/securitygroup_syncer.go:247-307 | From any state, with fixed nodes and successful calls, and however the cloud settles, the edits made plus the entries that will be missing or too many are constant over the run. |
| `SyncerRuns.GapOfSettled` | pkg/driver/securitygroup_syncer.go:247-307 | Over a settled group that number is the nodes without their /32 entry plus the entries without node. |
| `SyncerRuns.BelievesOnlyWhenDone` | pkg/driver/securitygroup_syncer.go:306-307 | In such runs from a safe group with the task set, the task is cleared only after exactly as many edits as entries were wrong, with the group that of the nodes, unless the group lists exactly the nodes at first while one of them is being revoked. |
| `SyncerRuns.BelievesOnlyWhenDoneIff` | pkg/driver/securitygroup_syncer.go:247-307 | All good runs from a state have only right beliefs if and only if it is not such a state. |
| `SyncerRuns.DeceivedAtOnce` | pkg/driver/securitygroup_syncer.go:251-256 | From such a state the very next good sync clears the task, wrongly. |
| `SyncerRuns.Converges` | pkg/driver/securitygroup_syncer.go:145-309 | From any state with the task set, when the cloud settles before each sync: the first n syncs each make an edit, where n counts the entries that are missing or too many once settled; the group is that of the nodes iff n syncs were made; and the task is cleared exactly from sync n + 1 on. |
| `SyncerRuns.RunKeepsInv` | pkg/driver/securitygroup_syncer.go:145-307 | At every position of every run the group is safe and the memory is consistent with what was observed. |
| `Ipv4.MaskedVal` | pkg/driver/configurator.go:807-813 | Masking the four bytes one by one rounds the 32-bit value down to a multiple of the network size, for every prefix length. |
| `Ipv4.MaskIs` | pkg/driver/configurator.go:844 | The mask bytes are that many ones followed by zeros. |
| `Ipv4.NetIs` | pkg/driver/configurator.go:807-821 | A network is the aligned run of 2^(32 - ones) addresses around its address. |
| `Ipv4.ValIs` | pkg/driver/utils.go:130-153 | The bytes of an address are the digits of its value, the first one the highest. |
| `Ipv4.ContainsIsInterval` | pkg/driver/configurator.go:898 | The byte-wise test for membership in a network is the interval from its first to its last address. |
| `Ipv4.StartIP` | pkg/driver/configurator.go:807-813 | The value of the result is the first address of the network. |
| `Ipv4.EndIP` | pkg/driver/configurator.go:815-821 | The value of the result is the last address; the byte additions never wrap. |
| `Ipv4.IncIP` | pkg/driver/configurator.go:823-832 | Adds one to the value, and wraps to zero exactly at the all-ones address. |
| `Ipv4.IncrementIP` | pkg/driver/utils.go:130-153 | Exact addition of any step byte on the value; fails iff the sum leaves the address space. |
| `Ipv4.IncrementsAgree` | pkg/driver/configurator.go:823-832 | With step one the two increments agree iff the address is not all ones. |
| `Ipv4.CompareIP` | pkg/driver/configurator.go:915-927 | The comparison of sixteen bytes is the comparison of the values, with 1 for less and -1 for greater. |
| `CidrDivs.BlocksPartition` | pkg/driver/configurator.go:834-855 | The blocks are 2^k in number, aligned, equal in size, ascending and disjoint, and an address is in the parent iff it is in one of them. |
| `CidrDivs.DivideNet` | pkg/driver/configurator.go:834-855 | Succeeds iff the offset is positive and fits the prefix, and then returns exactly these blocks, also for a parent that ends at the top of the address space. |
| `CidrDivs.SpliceIsWithout` | pkg/driver/configurator.go:903-911 | In an ascending list the blocks that meet an interval are contiguous, and cutting them out is filtering. |
| `CidrDivs.InRangeIsMeets` | pkg/driver/configurator.go:929-937 | For ordered ends the test is overlap with the interval; for reversed ends it is holding one of them. |
| `CidrDivs.MeetsIff` | pkg/driver/configurator.go:929-937 | A block meets an interval iff they share an address. |
| `CidrDivs.SpliceIsDropped` | pkg/driver/configurator.go:960-968 | Cutting from the first to the last block in range removes the blocks that meet the range, and for reversed ends exactly what `Dropped` defines. |
| `CidrDivs.IsDevInRange` | pkg/driver/configurator.go:929-937 | The byte-wise test equals the test on values. |
| `CidrDivs.CidrDivs.DropHeadAndTail` | pkg/driver/configurator.go:883-889 | Removes the first and the last block, and fails iff there are fewer than three. |
| `CidrDivs.CidrDivs.DropWithIP` | pkg/driver/configurator.go:891-913 | The list becomes the blocks that do not hold the address, in order; fails iff the address is unreadable. |
| `CidrDivs.CidrDivs.FindInRange` | pkg/driver/configurator.go:948-959 | The first and the last block in range, and whether there is any. |
| `CidrDivs.CidrDivs.DropWithIPRange` | pkg/driver/configurator.go:939-970 | The list becomes the blocks that do not meet the range, in order; reversed ends as in `Dropped`; fails iff an end is unreadable. |
| `Configurator.CandidatesAreBlocks` | pkg/driver/configurator.go:214-228 | The candidates are ascending blocks inside the LAN with at least 32 addresses each. |
| `Configurator.NewCandidates` | pkg/driver/configurator.go:214-228 | Succeeds iff the prefix of the LAN is at most 26; up to /23 there are 14 blocks of four more bits, and 6, 4 and 2 blocks of /27 for /24, /25 and /26; dropping the first and the last block never fails. |
| `Configurator.CandidatesCover` | pkg/driver/configurator.go:214-228 | The candidates cover exactly the LAN, or, up to /24, the LAN without one block at either end. |
| `Configurator.DropRdbs` | pkg/driver/configurator.go:235-243 | The list is filtered by the addresses of the databases on the network. |
| `Configurator.DropPools` | pkg/driver/configurator.go:258-265 | The list becomes what removing the pools one after the other leaves, with their ends in whatever order; fails iff an end is unreadable. |
| `Configurator.AfterRangesInOrder` | pkg/driver/configurator.go:258-265 | With start at most stop in every pool, that is one filter by the pools. |
| `Configurator.AfterRangesAvoids` | pkg/driver/configurator.go:258-265 | In any case every block that is left meets no pool in order and holds no end of any pool. |
| `Configurator.ReversedRangeIsClearedIff` | pkg/driver/configurator.go:929-968 | A pool with start above stop leaves no block that meets the interval between its ends if and only if both ends are covered by blocks or no block lies strictly between them. |
| `Configurator.BackwardPoolIsIgnored` | pkg/driver/configurator.go:223-265 | A pool from the last address of the LAN back to the first drops nothing, and the chosen block lies inside it, for every LAN whose first and last block are not offered. |
| `Configurator.DropAddresses` | pkg/driver/configurator.go:266-272 | The list is filtered by the static addresses. |
| `Configurator.Configurator.Recommend` | pkg/driver/configurator.go:200-281 | The whole pipeline: fails iff an input cannot be read or the LAN is too small; otherwise chooses the middle of what the removals leave, which in any case avoids all databases, static addresses, pools in order and ends of pools, and which is exactly the candidates that meet nothing in use when the pools are in order. |
| `Configurator.MiddleIs` | pkg/driver/configurator.go:275-279 | The block chosen has as many of the remaining blocks before it as after it, or one more, and none is chosen iff none remains. |
| `Configurator.RecommendedMeans` | pkg/driver/configurator.go:200-281 | With pools in order, the block chosen holds no address of a database on the network, of a static lease or of a pool, and none is chosen iff every candidate holds one. |
| `Configurator.InputsParseIff` | pkg/driver/configurator.go:235-272 | An input counts as readable iff every address of a database on the network, of a pool and of a lease can be read. |
| `Configurator.Configurator.ConfigureCidr` | pkg/driver/configurator.go:197-281 | No block for the common private network, the recommendation when asked for, otherwise no change; an error leaves the block as it was. |
| `Configurator.LeftIsFilter` | pkg/driver/configurator.go:230-272 | With all pools in order the three removals one after the other are one filter by everything in use. |
| `Configurator.LeftIsUsable` | pkg/driver/configurator.go:230-272 | Whatever the pools are, every block that is left is a candidate that meets no database, no static address and no pool in order, and holds no end of a pool. |
| `Configurator.RecommendationIsFree` | pkg/driver/configurator.go:274-279 | The middle of the exact filter is a candidate that meets nothing in use, and there is none iff every candidate is hit. |
| `IPAllocator.IPAllocator.GetUnreservedIP` | pkg/driver/utils.go:91-127 | Returns the least address of the block that is neither reserved nor pending and makes exactly it pending; fails only for an unreadable block or a full one, for every prefix length. |
| `IPAllocator.FirstFree` | pkg/driver/utils.go:112-126 | The scan ends for every prefix length, with the least free address or with every address taken. |
| `IPAllocator.LeastFreeMeans` | pkg/driver/utils.go:112-126 | The least free address passes the membership test, is not taken, and no smaller one is so; a block is full iff all its members are taken. |
| `IPAllocator.LeastFreeIsUnique` | pkg/driver/utils.go:112-126 | The least free address is unique and exists only when the block is not full. |
| `IPAllocator.IPAllocator.ReleaseIP` | pkg/driver/utils.go:84-88 | Removes exactly the given address; releasing nothing changes nothing. |
| `CreateVolume.CreateOnce` | pkg/driver/controller.go:314-415 | In every interleaving, repeated requests included: at most one request per name is past SetCreating, CreateNasInstance is never issued for an existing name, and reservations in flight are pairwise distinct. |
| `CreateVolume.ExitsGiveUpTheirOwn` | pkg/driver/controller.go:321-398 | In every run each exit gives up its own address and name, and every other request keeps its own. |
| `CreateVolume.StepLeaksNothing` | pkg/driver/controller.go:392-401 | Every held name and every pending address belongs to a request in flight. |
| `CreateVolume.StepKeepsInv` | pkg/driver/controller.go:314-415 | Each step keeps names and reservations distinct and tied to their requests. |
| `CreateVolume.AddressesUnique` | pkg/driver/controller.go:392-414 | When every pick goes by an up-to-date list, no two instances ever share an address of the allocator. |
| `CreateVolume.PickKeepsAddressesIff` | pkg/driver/controller.go:504-514 | Whatever free address a request may pick and create its instance with, no two instances come to share one, if and only if its list still shows every address that is in use and not pending. |
| `CreateVolume.PickIsSafeIff` | pkg/driver/controller.go:392-414 | An instance created with the picked address shares it if and only if another instance uses that address. |
| `CreateVolume.ListThenPickIsUpToDate` | pkg/driver/controller.go:504-529 | Listing directly before picking makes the list up to date. |
| `CreateVolume.StaleListSharesAddress` | pkg/driver/controller.go:505-509 | A run, for any two names and any address, in which two instances get the same address. |
| `CreateVolume.TakeName` | pkg/driver/controller.go:314-320 | SetCreating on the holder object is the step of that name of the request, and succeeds iff the request goes on. |
| `CreateVolume.ReserveIP` | pkg/driver/controller.go:504-514 | A successful reservation is a pick of the least address that the request could pick in the block; a failed one changes nothing and means that it could pick none. |
| `CreateVolume.Leave` | pkg/driver/controller.go:321-398 | The deferred calls on the two objects are the steps that give up the address and then the name. |
| `CreateVolume.InstanceNameHolder.SetCreating` | pkg/driver/utils.go:31-39 | Succeeds iff the name is not held; the name is held afterwards. |
| `CreateVolume.InstanceNameHolder.UnsetCreating` | pkg/driver/utils.go:48-52 | Removes exactly the given name. |

## Left out

- Integer width: byte counts are unbounded; int64 wrap-around needs volumes or parameters of 8 EiB in total.
- Text: addresses are four bytes with a prefix length, an unreadable address or number is `None`; Go's parsing of addresses, networks and numbers, and IPv6, are not modelled.
- FindPlace: reads one snapshot of the volume and instance lists, and the list calls do not fail; SharedCreate has each read and each failure as a step of its own, and agrees with FindPlace when nothing comes between.
- ConvertSharedRequest: starts after its call of Queue, which is part of ResourceQueue and InFlight; a failing list call is a failing step of SharedCreate.
- CreateVolume and DeleteVolume are step systems on values and not methods: no waiting for an instance to become available, no source path jobs, no snapshot restore; each can fail, which is the error exit.
- SharedCreate takes GetNasInstance and CreateNasInstance as one step; module CreateVolume separates them.
- SharedCreate compares only the storage of an existing instance with the request, not type, network, zone and security groups; a mismatch in those is an error exit.
- The DHCP pools and leases of all routers come as one list, and failing to read any router as one failure.
- SyncNasSecurityGroups: the clock is two flags per sync, the restoring of security group names one success flag, and the group of the cluster is one group.
- Reconcile: which of several extra entries is revoked is stated by FindExtra only.
- Data races inside Queue, UnsetQueue and the name holder; Show and IsCreating.
- Reading and writing storage classes, and matching nodes with servers, in the configurator.
- Snapshots and restic jobs, mounting on nodes, RPC plumbing, capability validation, flags, logging, and the clients of the cloud and of Kubernetes.
