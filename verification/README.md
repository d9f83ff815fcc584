# Verification of fastrg-node

fastrg-node is a home-gateway data plane (DPDK poll loops, PPPoE, NAT) whose
subscriber configuration is kept in step with etcd by a control loop. This
project models its concurrent protocols and its byte and number arithmetic in
Dafny and proves what they are meant to guarantee. Where the code falls short,
the exact condition is proved and a concrete failing case is given as a lemma.

Code that mutates objects is modelled as a class whose methods are proved against
functions on values; the theorems are lemmas about those functions. Code that
several threads run is modelled as a state machine with one atomic step per
locked section, ring operation or single atomic access, and the theorems hold
for every interleaving.

| module | what it covers |
|---|---|
| `Reconcile`, `PortForward` | convergence of local subscriber state to etcd under lost, delayed and reordered events |
| `PortFwdRace` | lock-free lookups of a port-forward slot while the control thread changes it |
| `VlanMap` | the VLAN ownership map and its rollback paths |
| `OfflineSnapshot`, `FieldMerge`, `FieldEdit` | edits made while etcd is away: editor, mirror and reporter threads; array merges; read-merge-store edits |
| `CaptureSession`, `Reclamation` | packet-capture bookkeeping; when capture resources may be freed under lock-free readers |
| `Mailbox` | ownership of control mail slots and what mails carry |
| `PackedWord`, `MacTable` | the generation-stamped MAC table against a plain map |
| `ArpPending` | the bounded queue of packets waiting for ARP |
| `Burst` | in-place burst compaction, queue hand-off, transmit-queue ownership |
| `IcmpChecksum` | incremental one's-complement checksums under NAT |
| `Ipv6Forward` | IPv6 over PPPoE encapsulation and decapsulation in place |
| `Capacity` | the hugepage capacity bound |

## What the proofs found

Properties that do not hold unconditionally, each with the exact condition proved
and most with a failing input:

- A reconcile pass can leave a wrong port-forward table in place: the cheap
  comparison counts entries, so a stale entry can hide behind a port listed twice.
  It happens exactly for lists that repeat a port with one and the same mapping and
  fit the table (`FooledExactly`, `PassHealsEveryStateExactly`, `RepeatedPortIsNotHealed`).
- A subscriber etcd no longer has is removed exactly if the sweep was sent, no
  service of it runs and the cleanup works (`PassHealsAbsent`); a listing without
  any key is no answer and sends none, so an emptied etcd heals nothing. A key that
  cannot be read, or whose event finds the queue full, is not healed by that pass
  (`ReconcileHeals`, `UnreadableIsLeftAlone`, `EmptiedEtcdIsNotHealed`).
- Complete, in-order live delivery converges without a pass, exactly unless the
  subscriber was last created without ports over a table an earlier life left
  behind (`InOrderDeliveryConvergesExactly`, `ForwardsOutliveTheSubscriber`).
- A lookup of a port-forward slot can return a target that was never in the table
  exactly if the control thread ever removes the entry; it can even pair the old
  address with the new port (`TearingExactly`, `OldAddressNewPort`).
- An offline field edit extends the entry it replaces exactly if nothing was
  written to the key since it was read; otherwise it carries the next version and
  loses what came between (`StoreExtendsExactly`, `SecondEditorWins`, `MirrorIsOverwritten`).
- Republished events and sweeps without a revision can move a stored revision
  back (`RollbackExactly`, `RepublishCanRollBack`).
- A removal frees the VLAN slot before the cleanup that may fail; after such a
  failure the map and the subscriber disagree, and another subscriber can lose
  its VLAN (`StepKeepsBijectionExactly`, `LostCleanupTakesNeighboursVlan`).
- A CREATE for an idle subscriber with the VLAN it already holds is refused; when
  an apply succeeds is stated exactly (`ApplySucceedsExactly`, `CreateWithOwnVlanRefused`).
- An offline edit is reported successful although the file could not be written;
  a restart loses it exactly unless it was handed to the reporter or a later write
  succeeded (`RestartLosesNothingExactly`, `EditLostWhenPersistFails`).
- Every capture start that fails after compiling its filter leaves the filter on
  the list. An idle context can start a filtered capture exactly below 32 filters
  compiled since the last teardown; 32 failed opens get there, and only an
  unfiltered capture gets out (`IdleContextRunsOutOfFilters`, `FailedOpensFillTheList`,
  `StuckUntilUnfilteredStart`).
- A short write leaves bytes in a capture file that its counter never sees. From
  then on the file can pass its size limit, exactly unless nothing has leaked or no
  further record header fits (`SessionStaysWithinLimitExactly`, `ShortWriteEscapesLimit`).
- A learn that read the generation before a reset can store its word over one
  learned since: the host is lost with no reset in between. A lookup agrees with
  the plain map exactly if that has not happened and the entry is no multiple of
  65536 resets old (`LookupRefinesPlainMap`, `FreshLearnLost`, `ResurrectedEveryTurn`).
- An ICMP packet that `encaps_icmp` gives up on, for want of a NAT port or of room
  for the session header, is freed twice by `lan_ctrl_rx`; a port-forwarded packet
  for an unknown host is held by nobody when the pending pool is empty.
  Every other packet of the WAN data queues and of the LAN control queue is let go
  of exactly once (`WanPacketDisposedOnceExactly`, `LanPacketDisposedOnceExactly`,
  `FreedTwice`).
- The echo reply to a valid request is valid exactly if it is not all zero
  (`EchoReplyValidExactly`, `ZeroEchoReplyIsInvalid`).
- The transmit-queue layout holds up to 65532 data queues and not beyond
  (`QueuesExistExactly`).
- The quote in a Packet Too Big reply shrinks exactly when the original IPv6 packet
  reaches 65536 bytes (`TooBigReplyFits`).

Where the code and its comments disagree the code is modelled:
`config_snapshot.h` says a mirror write overwrites an entry and clears its dirty
flag, while `config_snapshot.cpp:309-325` defers to a dirty entry; and an offline
edit or delete returns SUCCESS also when the snapshot file cannot be written.
The parser accepts VLAN ids up to 4094 (`utils.c:439-440`) and the map only up to
4000; VLAN 1 can be configured, but no frame tagged 1 is ever attributed.

## Model

| member | source | states |
|---|---|---|
| Reconcile.ReconcileHeals | src/etcd_integration.c:777-849 | after any run from boot of etcd writes, readable or not, lost, delayed, repeated and reordered events, republishes, passes, count changes and local edits, handling the queue and then one full pass at the current revision leaves a subscriber below the count in agreement with etcd if and only if it already was, or its key could be read and its event was queued, or its key is gone and the sweep was sent; provided applies succeed, subscribers etcd dropped are idle, and readable port lists parse and cannot fool the comparison |
| Reconcile.EmptiedEtcdIsNotHealed | northbound/controller/etcd_client.cpp:712-789 | a run after which etcd holds no key, the pass sends no sweep, and a configured, idle subscriber stays |
| Reconcile.RunKeepsInv | src/etcd_integration.c:380-399 | in every interleaving a stored revision never exceeds its key's last write, or the store revision when the key is absent |
| Reconcile.DispatchKeepsBound | src/etcd_integration.c:777-889 | handling any justified event keeps that bound for every subscriber |
| Reconcile.PassIsHonest | src/etcd_integration.c:401-490 | the events of a pass read at the current revision are events the store justifies |
| Reconcile.PassEffect | northbound/controller/etcd_client.cpp:742-789 | a pass touches each listed subscriber whose event was queued exactly once through the gate, and each unlisted one once through the sweep, if one was sent |
| Reconcile.PassHealsPresent | src/etcd_integration.c:817-849 | for readable lists without repeats a pass heals a present subscriber if and only if it already agreed, or its event was queued and its apply goes through (a failing apply leaving anything but the wanted configuration) |
| Reconcile.PassHealsEveryStateExactly | src/etcd_integration.c:131-289 | for which port lists a pass whose event is queued and whose apply goes through heals every local state: readable ones that do not repeat a port with one and the same mapping (within the table size), and unreadable ones in which every port named has a readable mapping |
| Reconcile.PassHealsAbsent | northbound/controller/etcd_client.cpp:763-789 | a pass removes an absent subscriber if and only if it is already gone, or the sweep was sent, it is idle and its cleanup works |
| Reconcile.UnreadableIsLeftAlone | northbound/controller/etcd_client.cpp:1653-1657 | a subscriber whose value does not parse is neither changed nor swept |
| Reconcile.LiveEventHealsExactly | src/etcd_integration.c:424-465 | when one live event that goes through brings its subscriber to what etcd holds |
| Reconcile.DeliveredIs | src/etcd_integration.c:401-490 | complete in-order delivery to an idle subscriber leaves the configuration of the last write and the port table told from the log |
| Reconcile.InOrderDeliveryConvergesExactly | src/etcd_integration.c:448-452 | it agrees with etcd if and only if the last write is not a creation without ports over a table left by earlier writes |
| Reconcile.ForwardsOutliveTheSubscriber | src/etcd_integration.c:448-452 | a subscriber created with a forward, deleted and created without keeps the forward |
| Reconcile.RepeatedPortIsNotHealed | src/etcd_integration.c:251-289 | a repeated port and a stale entry that a pass does not heal |
| Reconcile.DelayedReconcileLeavesNewer | src/etcd_integration.c:380-399 | a reconcile event or sweep read at revision R > 0 leaves any subscriber stored above R unchanged |
| Reconcile.ReconcileNeverRollsBack | src/etcd_integration.c:380-399 | over any sequence of such events each stored revision is non-decreasing |
| Reconcile.RollbackExactly | src/etcd_integration.c:796-849 | an event lowers a stored revision if and only if it is a sweep without a revision over a configured, idle, unlisted subscriber, or a non-reconcile event with an older revision that is not skipped as already matching and whose delete finds a configured, idle subscriber or whose valid values are applied (or ignored, for a CREATE on a running one) |
| Reconcile.RepublishCanRollBack | src/etcd_integration.c:492-550 | a republished read overtaken by a newer live event restores the old configuration |
| Reconcile.CreateOnRunningUserOnlyStampsRevision | src/northbound.c:111-118 | a CREATE for a running subscriber applies nothing and stores its revision |
| Reconcile.ControlLoop.EventDispatch | src/etcd_integration.c:777-889 | the dispatcher, in place, has exactly the effect of the function the theorems are about |
| Reconcile.ControlLoop.DispatchHsi | src/etcd_integration.c:796-849 | gate, comparison and callback for one subscriber |
| Reconcile.HsiDispatched | src/etcd_integration.c:796-849 | which subscriber an HSI event reaches and when it is skipped; nobody else is touched |
| Reconcile.ControlLoop.ReconcileSweep | src/etcd_integration.c:699-728 | the sweep loop removes exactly the configured, unlisted, not newer subscribers that can be removed and stamps them, slot by slot; every other slot is unchanged |
| Reconcile.ControlLoop.HsiConfigChanged | src/etcd_integration.c:401-490 | the callback updates exactly one slot: config, port table through the in-place reconcile, and revision as specified; revision untouched on failure |
| Reconcile.ControlLoop.ApplyHsiConfig | src/northbound.c:47-230 | ignored for a CREATE on a running subscriber; otherwise the config taken over field by field, or what a failing apply leaves |
| Reconcile.ControlLoop.HsiConfigMatchesLocal | src/etcd_integration.c:131-289 | field by field as the source does, pool length and first address included, and ports through the in-place comparison, it decides whether the config is in force |
| Reconcile.SameEffectExactly | src/etcd_integration.c:206-225 | what that comparison cannot tell apart: exactly configs equal but for a pool turned around its first address |
| Reconcile.EffectExactly | src/etcd_integration.c:206-225 | which field of the config each field in force comes from, and that this determines it |
| Reconcile.ControlLoop.UserCountChanged | src/etcd_integration.c:553-695 | for a count in range, every slot between the new count and the old is out of use and without a config, or with what a failing cleanup leaves, its revision and port table kept; every other slot is unchanged; for a count out of range nothing changes |
| Reconcile.CountDispatched | src/etcd_integration.c:553-695 | the same for the function the theorems are about, slot by slot |
| Reconcile.ControlLoop.RemoveHsiConfig | src/northbound.c:239-270 | removal is refused without a config or while a service runs, and otherwise leaves nothing or what a failing cleanup leaves |
| Reconcile.ControlLoop.IsPresent | src/etcd_integration.c:706-712 | the inner search decides membership in the listed subscribers |
| PortForward.ReconcilePortMapping | src/northbound.c:351-426 | the two in-place passes leave the specified table for every list; SUCCESS if and only if every address parses, and then exactly the desired table; an entry already in place keeps its hit counter |
| PortForward.ReconcileOutcome | src/northbound.c:351-426 | per port: the last readable mapping wins, a port named only unreadably keeps what it had, an unnamed port is gone |
| PortForward.ReconcileExact | src/northbound.c:351-426 | with readable addresses the result does not depend on the table before |
| PortForward.ReconcileExactly | src/northbound.c:351-426 | with unreadable ones it equals the desired table if and only if no stale port is named by them alone |
| PortForward.RemoveStale | src/northbound.c:364-388 | pass 1 deactivates exactly the unnamed ports |
| PortForward.PortFwdAdd | src/pppd/nat.h:878-889 | an active entry is left alone, an inactive one filled with a zero hit count |
| PortForward.PortFwdRemove | src/pppd/nat.h:907-917 | the entry becomes inactive; ERROR if and only if it was |
| PortForward.PortMappingsMatch | src/etcd_integration.c:251-289 | the loop computes equal count plus containment |
| PortForward.CheapMatchSound | src/etcd_integration.c:251-289 | for distinct external ports that check holds if and only if the table is the desired one |
| PortForward.FooledExactly | src/etcd_integration.c:251-289 | for readable lists the check accepts some wrong table if and only if a port repeats, equal ports carry equal mappings, and the list is no longer than the table |
| PortForward.FoolableIsFooled | src/etcd_integration.c:251-289 | for each such list, the table padded with stale entries that is accepted |
| PortForward.CheapMatchExactlyWhenDistinct | src/etcd_integration.c:251-289 | accepting exactly the desired table, neither more nor less, is possible if and only if no port repeats (a repeated port makes even the desired table fail the count) |
| PortForward.CheapMatchFooledByDuplicate | src/etcd_integration.c:251-289 | a stale table the check accepts |
| PortForward.CheapMatchNeedsParse | src/etcd_integration.c:251-289 | an unreadable address never matches |
| PortForward.EportsCardinality | src/etcd_integration.c:251-289 | the pigeonhole step: a list names as many ports as it has mappings if and only if all differ |
| PortFwdRace.TearingExactly | src/pppd/nat.h:848-949 | some lookup, its three loads anywhere between the stores, returns a target never in the table if and only if the control thread removes the entry |
| PortFwdRace.QuietLookupIsExact | src/pppd/nat.h:848-858 | a lookup during which nothing is stored returns a target of the table |
| PortFwdRace.OldAddressNewPort | src/pppd/nat.h:878-917 | a remove and an add during a lookup can give the old address with the new port |
| VlanMap.FramesReachTheirOwner | src/dp.h:192-226 | after any run from boot that loses no cleanup, a frame is attributed to a subscriber if and only if that subscriber is below the count and holds the frame's VLAN (2 or more), and no two share a VLAN |
| VlanMap.StepKeepsBijectionExactly | src/northbound.c:47-270 | every create, update, failed and rolled-back apply, removal and disable keeps map and VLAN ids inverse, except exactly a removal or disable whose cleanup fails |
| VlanMap.RunKeepsBijection | src/northbound.c:47-270 | so does every run without such a failure |
| VlanMap.FailedApplyRollsBack | src/northbound.c:149-229 | a failing apply changes nothing, except that a failing DHCP pool leaves the VLAN moved |
| VlanMap.ApplySucceedsExactly | src/northbound.c:47-230 | an apply succeeds if and only if the values are valid and either it is a CREATE for a running subscriber, or drain, credentials and pool work and a configured subscriber is updated on its own VLAN or the VLAN is in range and held by nobody, the subscriber itself included |
| VlanMap.AppliedExactly | src/northbound.c:47-230 | when an apply moves the subscriber, what each slot, id, flag and gate is afterwards; in all other cases nothing changes |
| VlanMap.CreateWithOwnVlanRefused | src/northbound.c:149-160 | the case of it that surprises: a CREATE for an idle subscriber naming its own VLAN fails and changes nothing |
| VlanMap.LostCleanupTakesNeighboursVlan | src/northbound.c:239-270 | a run in which a lost cleanup takes the VLAN from another subscriber |
| VlanMap.ClearedKeepsBijectionExactly | src/pppd/pppd.c:774-800 | releasing the slot and clearing the subscriber keeps the inverse if and only if the clearing works or there was no VLAN |
| VlanMap.Subscribers.ApplyHsiConfig | src/northbound.c:47-230 | the in-place routine with its gates, rollback and status equals the specification on every path and keeps the bijection; told directly, after SUCCESS other than for a CREATE on a running subscriber, the subscriber holds the VLAN and is configured, its old slot is free, and every other slot, id, flag and gate is as before |
| VlanMap.Subscribers.ApplyAsNew | src/northbound.c:149-163 | the branch for an idle CREATE: claim, then session state, then release of the old slot; on failure nothing is left |
| VlanMap.Subscribers.ApplyInPlace | src/northbound.c:164-185 | the branch for a configured subscriber: both slots are put back when credentials fail |
| VlanMap.Subscribers.RemoveHsiConfig | src/northbound.c:239-270 | refused without a VLAN or while a service runs; otherwise exactly the held slot is freed and, cleanup permitting, id and flag are cleared |
| VlanMap.DisabledExactly | src/pppd/pppd.c:774-800 | disabling closes the gates, frees exactly the held slot and, cleanup permitting, clears id and flag; nobody else changes |
| VlanMap.Subscribers.SetVlanMapCcbId | src/northbound.c:24-37 | a slot is claimed if and only if the id is in range and free |
| VlanMap.Subscribers.ResetVlanMapCcbId | src/northbound.c:39-45 | a slot in range is freed |
| VlanMap.Subscribers.PppInitConfig | src/pppd/pppd.c:626-730 | either nothing changes or the session state is reset with the new VLAN |
| OfflineSnapshot.NoOfflineEditLost | northbound/controller/config_snapshot.cpp:298-584 | in every interleaving of edits, deletes, mirror writes, dirty-set copies, acknowledgements and restarts from an up-to-date file, each key's latest proposal (the text the editor handed in, or the value a delete found) is still dirty with its value intact or was handed to a report that copied exactly it; an earlier report of the same text does not count |
| OfflineSnapshot.RunKeepsInv | northbound/controller/config_snapshot.cpp:561-584 | the invariant behind it: an outstanding item with the entry's sequence number carries the latest proposal, and the file holds a proposal once a write followed it |
| OfflineSnapshot.RestartLosesNothingExactly | northbound/controller/config_snapshot.cpp:150-168 | a restart after any run from boot loses nothing if and only if the last edit or delete of every key was handed over, wrote the file, or was followed by a step that wrote it |
| OfflineSnapshot.EditLostWhenPersistFails | northbound/controller/config_snapshot.cpp:415-433 | an edit accepted while the file cannot be written is gone after a restart |
| OfflineSnapshot.VersionChain | northbound/controller/config_snapshot.cpp:389-415 | between the first unreported edit and its clear, mirror writes do not intervene, edits stamp successive versions in order, and deletes and recreates continue the chain |
| OfflineSnapshot.FirstEditStamp | northbound/controller/config_snapshot.cpp:389-415 | the first edit stamps one more than the version before, 2 over an unreadable version, 1 over nothing |
| OfflineSnapshot.ReportCarriesLastStamp | northbound/controller/config_snapshot.cpp:510-559 | the reported item, tombstones included, carries the last version stamped |
| OfflineSnapshot.ConfigSnapshot.Init | northbound/controller/config_snapshot.cpp:236-280 | the entries become those of the file, sequence numbers restarting; none for a missing file; none and ERROR for a corrupt one |
| OfflineSnapshot.ConfigSnapshot.PersistAndTrack | northbound/controller/config_snapshot.cpp:150-168 | file and failure flag after a persist, and a report exactly on a change |
| OfflineSnapshot.PersistedExactly | northbound/controller/config_snapshot.cpp:150-168 | the file has every entry as it is but for the sequence number, and there is only one such file |
| OfflineSnapshot.ConfigSnapshot.WatchUpdate | northbound/controller/config_snapshot.cpp:298-342 | a mirror write defers to a dirty entry, skips an equal one and otherwise replaces it |
| OfflineSnapshot.ConfigSnapshot.StampEdit | northbound/controller/config_snapshot.cpp:389-419 | what an edit makes of its entry: the text, a version one more than the one it replaces (2 over an unreadable version, 1 over nothing), flags, sequence number and summary |
| OfflineSnapshot.ConfigSnapshot.OfflineEdit | northbound/controller/config_snapshot.cpp:371-433 | SUCCESS if and only if initialised and the text is an object; then the entry holds exactly that text with the next version, exists, is dirty, its sequence number is one more, the summary is extended unless empty, and every other entry is unchanged |
| OfflineSnapshot.ConfigSnapshot.OfflineDelete | northbound/controller/config_snapshot.cpp:435-488 | a tombstone keeps its value and version; deleting nothing succeeds |
| OfflineSnapshot.ConfigSnapshot.ClearDirty | northbound/controller/config_snapshot.cpp:561-584 | clears if and only if the sequence number is the one reported |
| OfflineSnapshot.ConfigSnapshot.CopyDirty | northbound/controller/config_snapshot.cpp:510-559 | exactly the dirty entries, each once, in the order of the map |
| OfflineSnapshot.FirstKey | northbound/controller/config_snapshot.cpp:53 | the least key of a set in the lexicographic order of the stored texts |
| FieldMerge.SnatUpsert | northbound/controller/config_snapshot.cpp:669-695 | fails if and only if the entry or some stored rule has no readable port; otherwise replaces or appends and renumbers |
| FieldMerge.SnatRemove | northbound/controller/config_snapshot.cpp:696-708 | fails if and only if some rule has no readable port; otherwise drops the port and renumbers |
| FieldMerge.DnsMerge | northbound/controller/config_snapshot.cpp:600-657 | the DNS add and delete merges, with their failures |
| FieldMerge.SnatUpsertIsInsert | northbound/controller/config_snapshot.cpp:669-695 | what a reader finds afterwards is map insertion, renumbering included |
| FieldMerge.SnatRemoveIsRemove | northbound/controller/config_snapshot.cpp:696-708 | and map removal |
| FieldMerge.UpsertIsInsert | northbound/controller/config_snapshot.cpp:591-716 | the array update refines map insertion even with repeated keys |
| FieldMerge.WithoutIsRemove | northbound/controller/config_snapshot.cpp:591-716 | the filter refines map removal |
| FieldMerge.UpsertKeepsOrder | northbound/controller/config_snapshot.cpp:591-716 | keys keep their order, one is appended only if new, and elements of other keys are untouched |
| FieldMerge.UpsertKeepsUnique | northbound/controller/config_snapshot.cpp:591-716 | unique keys stay unique |
| FieldMerge.WithoutKeepsRest | northbound/controller/config_snapshot.cpp:591-716 | exactly the elements of other keys remain |
| FieldMerge.WithoutKeepsUnique | northbound/controller/config_snapshot.cpp:591-716 | removal keeps unique keys unique |
| FieldMerge.RemoveUndoesInsert | northbound/controller/config_snapshot.cpp:591-716 | removing a key just added gives the original array |
| FieldEdit.StoreExtendsExactly | northbound/grpc/fastrg_node_grpc.cpp:50-69 | in every interleaving of editors, mirror writes, deletes and clears, a stored document extends the entry it replaces if and only if nothing was written to the key since it was read, or the key was absent then and is again |
| FieldEdit.SecondEditorWins | northbound/grpc/fastrg_node_grpc.cpp:50-69 | of two editors that read the same document the second stores the next version without the first edit |
| FieldEdit.MirrorIsOverwritten | northbound/controller/config_snapshot.cpp:389-415 | a document merged from a value the mirror has replaced carries the new value's version plus one |
| CaptureSession.PdumpContext.Start | src/pdump_capture.c:545-647 | for every request: success exactly by the stated decision; a WAN request switches on exactly the requested slots of the WAN port with the filter and leaves the LAN port alone, a LAN request the other way round, ALL both; the whole new session; all bookkeeping invariants kept |
| CaptureSession.PdumpContext.StartSession | src/pdump_capture.c:603-647 | opens or joins the session, refused while paused; which slots of which port are switched on for each direction, with their filters |
| CaptureSession.PdumpContext.StartCompiled | src/pdump_capture.c:603-647 | the same with the requested slots spelled out: the one of the subscriber, or all below the count |
| CaptureSession.RangeSwitches | src/pdump_capture.c:490-498 | the range of a request is the slot of its subscriber, or all below the count for subscriber 0 |
| CaptureSession.PdumpContext.EnablePorts | src/pdump_capture.c:620-642 | switches on exactly the range on the ports of the direction, each named, with the filter; a port of no interest is unchanged |
| CaptureSession.PdumpContext.StopRange | src/pdump_capture.c:501-522 | the whole new session after switching off a range on the ports of the direction, each named, torn down exactly when nothing is left on |
| CaptureSession.PdumpContext.DisablePorts | src/pdump_capture.c:501-522 | switches off exactly the range on the ports of the direction, each named, and takes exactly their filters; counters and callbacks follow |
| CaptureSession.PdumpContext.Stop | src/pdump_capture.c:649-695 | success exactly for a known direction, a valid subscriber and an open session; a WAN stop switches off exactly the requested slots of the WAN port and leaves the LAN port alone, a LAN stop the other way round, ALL both |
| CaptureSession.PdumpContext.DisableCcb | src/pdump_capture.c:697-712 | a count drop switches off exactly the dropped slots; the whole new session and every filter |
| CaptureSession.PdumpContext.Cleanup | src/pdump_capture.c:714-740 | everything off, resources gone, and with them the filters of an open session |
| CaptureSession.PdumpContext.WriteOne | src/pdump_capture.c:212-248 | the writer thread's record step: pauses instead of passing the limit, counts what the code counts on each short write, keeps every bookkeeping invariant |
| CaptureSession.PdumpContext.Teardown | src/pdump_capture.c:442-485 | releases resources and every filter; its callers must have unlinked both ports |
| CaptureSession.PdumpContext.CompileFilter | src/pdump_capture.c:282-330 | a compiled filter joins the list at once, up to 32 |
| CaptureSession.PortCapture.EnableRange | src/pdump_capture.c:620-642 | active_per_port stays the number of set slots; callbacks registered on the first |
| CaptureSession.PortCapture.DisableRange | src/pdump_capture.c:501-522 | and unregistered with the last; filters only on set slots |
| CaptureSession.IdleContextRunsOutOfFilters | src/pdump_capture.c:585-602 | after any run from boot of starts, stops, count drops and records, an idle context can start a filtered capture if and only if fewer than 32 filters were compiled since the last teardown |
| CaptureSession.FiltersSinceTeardown | src/pdump_capture.c:585-602 | over every run the list holds every filter compiled since the last teardown |
| CaptureSession.FailedOpensFillTheList | src/pdump_capture.c:603-612 | failed opens each leave one filter behind, up to the full list |
| CaptureSession.StuckUntilUnfilteredStart | src/pdump_capture.c:585-602 | an idle context with a full list is unchanged by every run in which no unfiltered start succeeds |
| CaptureSession.UnfilteredSessionEmptiesTheList | src/pdump_capture.c:442-485 | an unfiltered start and a stop empty it |
| CaptureSession.CountedWithinLimit | src/pdump_capture.c:212-248 | over any records and short writes the counter never passes the limit and never counts a byte not written |
| CaptureSession.FileIsCountedPlusLeaked | src/pdump_capture.c:212-248 | over any records and short writes the file runs ahead of the counter by exactly the bytes short writes leave |
| CaptureSession.StaysWithinLimitExactly | src/pdump_capture.c:212-248 | told from the writer alone: every continuation by fully written records keeps the file within its limit if and only if it is within it now and nothing has leaked or no record header fits any more |
| CaptureSession.SessionStaysWithinLimitExactly | src/pdump_capture.c:545-647 | the same for the writer of every session open after any run from boot |
| CaptureSession.RunKeepsWriter | src/pdump_capture.c:212-248 | over every run an open session has a positive limit, a counter within it and a file not behind the counter |
| CaptureSession.Fill | src/pdump_capture.c:212-248 | while a record header fits, fully written records can use the limit up to the last byte |
| CaptureSession.FileWithinLimit | src/pdump_capture.c:212-248 | in particular without short writes |
| CaptureSession.ShortWriteEscapesLimit | src/pdump_capture.c:212-248 | a run from boot with the smallest limit, one mebibyte, in which one short write lets the file pass it |
| Reclamation.NeverInsideFreedSession | src/pdump_capture.c:442-485 | over all runs and repeated sessions, with callbacks unlinked before the wait, no poll loop, distributor worker or control transmission is inside a callback of a session that is not live |
| Reclamation.RunKeepsInv | src/dp.h:530-615 | the protocol invariant: during the wait a reader inside a callback has not passed the token and has not been checked off |
| Reclamation.SafeExactlyWhenUnlinkedFirst | src/pdump_capture.c:442-485 | every run is safe if and only if callbacks are unlinked before the wait begins |
| Reclamation.HastyRunFreesUnderAReader | src/dp.c:2260-2272 | otherwise a control transmission can be inside when the session is freed |
| Reclamation.PassedIsStable | src/dp.h:591-597 | a reader seen past the token stays past it until the free |
| Reclamation.BoundaryPasses | src/dp.c:1639-1671 | every burst boundary, going online and going offline puts a reader past the token, so the wait can end |
| Mailbox.SlotsPartitioned | src/fastrg.c:172-230 | in every reachable state each of the 8191 slots is in exactly one place among free ring, queue, producers and consumer batch |
| Mailbox.GiveBackNeverFails | src/fastrg.c:879-905 | whoever holds a pool slot finds room in the free ring |
| Mailbox.NothingFreedTwice | src/fastrg.c:257-670 | what a mail carries is released at most once, and never while in flight, through the switch over its type |
| Mailbox.SwitchesComplete | src/fastrg.c:257-670 | for every mail type the loop and the drain release the same, which is exactly what such a mail carries, and return exactly the pool slots |
| Mailbox.DrainReturnsEverything | src/fastrg.c:879-905 | after the shutdown drain every packet, event and link mail ever handed in was released exactly once and the pool is complete |
| Mailbox.StepConserves | src/fastrg.c:172-230 | every step moves slots without creating or losing one, and counts a resource once when it is handed in |
| Mailbox.RunKeepsInv | src/fastrg.c:243-670 | the conservation invariant over every interleaving of producers, consumer, stop and drain |
| Mailbox.RingSize | src/init.c:404-438 | a ring holding each slot at most once never exceeds the pool, and is below it when one is missing |
| Mailbox.ControlMailbox.constructor | src/init.c:404-438 | the pool holds each of the 8191 slots once |
| Mailbox.ControlMailbox.PostEvent | src/fastrg.c:172-230 | queued with the first free slot, or ERROR with the payload still the caller's and the slot back |
| Mailbox.ControlMailbox.Send2cp | src/dp.h:505-528 | the packet is queued or dropped, never both and never left behind |
| Mailbox.ControlMailbox.RunBurst | src/fastrg.c:257-670 | the first 64 mails at most are released in order, each by the branch of its type, and their slots returned |
| Mailbox.ControlMailbox.HandleMail | src/fastrg.c:259-668 | each branch of the loop releases what its type carries and returns the slot it came in |
| Mailbox.ControlMailbox.Drain | src/fastrg.c:879-905 | everything queued is released in order, each by the branch of its type, and the pool is complete |
| Mailbox.ControlMailbox.DrainMail | src/fastrg.c:882-904 | each branch of the drain does the same |
| PackedWord.UnpackPack | src/mac_table.h:113-141 | address and stamp survive packing |
| PackedWord.PackUnpack | src/mac_table.h:113-141 | every 64-bit word is the packing of what it unpacks to |
| PackedWord.Pack | src/mac_table.h:113-121 | the shift-and-or loop computes the base-256 numeral |
| PackedWord.PackedLayout | src/mac_table.h:113-121 | that numeral: byte i of the address at bits 8i, the stamp at bit 48 |
| PackedWord.Unpack | src/mac_table.h:136-141 | the shift-and-truncate loop reads it back |
| PackedWord.OrDisjoint | src/mac_table.h:117-119 | or is addition where the shifted operand starts above the other |
| MacTable.LookupRefinesPlainMap | src/mac_table.h:158-208 | in every interleaving of multi-step learns and resets a lookup answers as the plain map, which a reset empties and learns of this generation fill, if and only if the entry is no positive multiple of 65536 resets old and no learn from before the last reset overwrote a current one (or both, with equal addresses) |
| MacTable.OverwrittenExactly | src/mac_table.h:191-208 | an address becomes overwritten exactly by the late store of a learn begun before the last reset, and recovers exactly by a reset or a learn of this generation |
| MacTable.OverwrittenRunsExactly | src/mac_table.h:191-208 | over every run from boot an address is overwritten if and only if the late store of an old learn came after its last reset and its last learn of the generation |
| MacTable.LookupRefinesOverRuns | src/mac_table.h:158-208 | so after any run from boot below 65536 resets a lookup answers as the plain map if and only if that is not so |
| MacTable.CalmRunRefines | src/mac_table.h:158-208 | without such stores, and below 65536 resets, every lookup answers as the plain map |
| MacTable.FreshLearnLost | src/mac_table.h:191-208 | from boot, a host learned since the last reset is seen and then lost with no reset in between |
| MacTable.RunKeepsInv | src/mac_table.h:191-208 | entries carry the stamp of the generation their learner read, and an entry of this generation is what the plain map holds |
| MacTable.StaleLearnStaysInvisible | src/mac_table.h:191-208 | a learn that read the generation before a racing reset stays invisible, exactly unless its age is a multiple of 65536, and the plain map ignores it |
| MacTable.LearnIsSeen | src/mac_table.h:191-208 | an accepted learn that no reset interrupts is seen at once |
| MacTable.ProbeHitIsSeen | src/mac_table.h:199-204 | skipping the store when the very word is present loses nothing |
| MacTable.ResurrectedEveryTurn | src/mac_table.c:75-85 | n resets hide a current entry if and only if n is not a multiple of 65536 |
| MacTable.SplitLookupIsAtomic | src/mac_table.h:158-171 | a lookup that loads the word and later the generation succeeds if and only if the entry was current and no reset came between, for entries less than a turn old, and then yields what the plain map held |
| MacTable.ListedIsSeen | src/mac_table.c:87-105 | the walk lists exactly the addresses a lookup finds, each once |
| MacTable.Table.Lookup | src/mac_table.h:158-171 | succeeds exactly for an entry of this generation and then yields its address |
| MacTable.Table.Learn | src/mac_table.h:191-208 | an accepted learn is what lookups see, a refused one is counted and changes nothing, and every other entry, stale or not, is the same |
| MacTable.Table.Reset | src/mac_table.c:75-85 | one increment makes every visible entry invisible |
| MacTable.Table.Iterate | src/mac_table.c:87-105 | the next listed address or the end, skipping exactly the stale ones |
| MacTable.Table.List | northbound/grpc/fastrg_node_grpc.cpp:1083-1121 | counts all listed addresses and returns the first ones up to the limit |
| ArpPending.Queue.Enqueue | src/mac_table.c:182-214 | ERROR with nothing consumed if and only if the pool is empty; on a full ring exactly the oldest packet is dropped |
| ArpPending.Queue.Drain | src/mac_table.c:216-251 | releases the first matching packets up to the maximum, each for that address, at its place with its own queue and the MAC written; keeps the rest in order, with none for the address unless the room is used up; drops none, returns entries to the pool |
| ArpPending.Queue.Flush | src/mac_table.c:253-267 | every packet dropped in order, every entry returned |
| ArpPending.ReleasedArePrefix | src/mac_table.c:216-251 | the released packets are the first matching ones in arrival order |
| ArpPending.ReleasedExactly | src/mac_table.c:228-249 | only packets for the resolved address are released, and one stays only when the room is used up |
| ArpPending.RoomForAll | src/mac_table.c:216-251 | with room enough only packets for other hosts stay |
| ArpPending.DrainPartitions | src/mac_table.c:216-251 | every queue position goes to exactly one side, both in arrival order, and no packet for the address goes before an older one |
| ArpPending.HostOrderKept | src/mac_table.c:182-267 | over every run the packets for one host leave in exactly the order they came, and the rest are still queued |
| ArpPending.KeptFits | src/mac_table.c:242-249 | nothing is lost between the two sides, so queueing again cannot fail |
| Burst.OneSenderPerQueue | src/dp.c:45-86 | every transmit queue of a port has exactly one sender, the documented one |
| Burst.QueuesExistExactly | src/dp.c:45-86 | every assigned queue exists if and only if there are at most 65532 data queues |
| Burst.DataCore.Compact | src/dp.c:668-753 | compaction in place keeps exactly the packets to transmit in arrival order, never overwriting an unread one, and makes exactly the disposals their fates say |
| Burst.LeftExactly | src/dp.c:668-753 | a packet leaves a burst exactly by the disposals of its fate |
| Burst.DataCore.CheckPktFromOtherLcore | src/dp.c:88-101 | tops the batch up from the ring's front, never past the maximum |
| Burst.DataCore.PollOnce | src/dp.c:668-785 | one whole turn: batch, top-up, sent prefix, dropped tail |
| Burst.DataCore.DropRefused | src/dp.c:775-784 | the refused tail is dropped in order |
| Burst.DataCore.SendPktToOtherLcore | src/dp.h:437-451 | queued, or ERROR with the packet still the caller's |
| Burst.DataCore.HandOver | src/dp.c:899-908 | queued or dropped |
| Burst.KeptInOrder | src/dp.c:668-753 | the kept packets are those received at the keep positions |
| Burst.PositionsExact | src/dp.c:668-753 | which are all of them, in arrival order |
| Burst.BurstSplits | src/dp.c:498-623 | kept and let go, a packet counts as often as its fate says |
| Burst.RunCounts | src/dp.c:668-785 | over every run a packet is sent, disposed of or still on the ring exactly as often as its fates say |
| Burst.RunConserves | src/dp.c:668-785 | with fates of weight one, as often as it came |
| Burst.DisposedOnceExactly | src/dp.c:668-785 | whatever fates the branches hand out, a packet received once is let go of exactly once if and only if its fate has weight one |
| Burst.SentExactly | src/dp.c:668-785 | over every run a packet received once, in a burst the port takes whole, is transmitted once if its fate keeps it and never otherwise |
| Burst.LanCtrlIcmpOnceExactly | src/dp.c:1030-1048 | an ICMP packet of the LAN control queue is kept if and only if it is not for the gateway, or the gate is open and it gets both a NAT port and room for the header; behind an open gate the others are dropped twice |
| Burst.FreedTwice | src/dp.c:1045-1048 | a run in which one packet is freed twice |
| Burst.DecapsOnceExactly | src/dp_codec.h:322-383 | when a WAN packet is kept, dropped or parked; it has weight one unless it is port-forwarded to an unknown host while the pending pool is empty |
| Burst.WanDataOnceExactly | src/dp.c:668-772 | the branch tree of wan_data_rx lets go of a packet exactly once if and only if it is not a port-forwarded one for an unknown host with the pending pool empty, which nobody holds any more |
| Burst.WanKeptExactly | src/dp.c:668-772 | the branch tree of wan_data_rx keeps a packet for the LAN if and only if: forwarded IPv6 past gate, firewall and neighbor cache; UDP or TCP of a session or forwarded to a known host, not tracked out, not DNS for the proxy; or an echo reply of a session |
| Burst.WanToCpExactly | src/dp.c:498-623 | which of its packets go to the control plane |
| Burst.WanParkedExactly | src/dp_codec.h:322-470 | which wait for a host address |
| Burst.WanDroppedExactly | src/dp.c:668-772 | that all others are dropped, but for those that leak |
| Burst.LanCtrlOnceExactly | src/dp.c:844-1066 | the branch tree of lan_ctrl_rx lets go of a packet exactly once if and only if it is not a gateway-bound ping without NAT port or room for the header, which is dropped twice |
| Burst.LanKeptExactly | src/dp.c:844-1066 | the branch tree of lan_ctrl_rx keeps a packet for the WAN if and only if: forwarded or passed IPv6, PPPoE, IGMP, or ICMP from beyond the subnet not for the gateway or translated |
| Burst.LanAloneExactly | src/dp.c:844-1066 | which of its packets are sent one by one |
| Burst.LanRestExactly | src/dp.c:844-1066 | which go to the control plane, are dropped, or are dropped twice |
| Burst.WanPacketDisposedOnceExactly | src/dp.c:668-785 | over every run of a WAN data core a packet received once is sent or disposed of exactly once if and only if it does not leak |
| Burst.WanPacketSentExactly | src/dp.c:668-785 | over every run of a WAN data core such a packet is transmitted exactly once if it meets the facts of a LAN-bound packet, and never otherwise |
| Burst.LanPacketDisposedOnceExactly | src/dp.c:844-1085 | over every run of the LAN control core likewise, but for the double drop |
| Burst.LanPacketSentExactly | src/dp.c:844-1085 | over every run of the LAN control core likewise for the WAN |
| Burst.DataCore.EncapsIcmpPacket | src/dp_codec.h:282-318 | encaps_icmp drops the packet itself on each of its failing exits |
| Burst.DataCore.IcmpToWan | src/dp.c:1030-1048 | the caller's branch makes exactly the disposals of the stated fate |
| IcmpChecksum.RewriteKeepsValidity | src/dp_codec.h:305-307 | rewriting the identifier keeps the message valid under section 1 of RFC 1071 if and only if it was, the all-zero message apart |
| IcmpChecksum.WithIdentKeepsRest | src/dp_codec.h:305-307 | only checksum and identifier change |
| IcmpChecksum.UpdateIsRecomputation | src/dp_codec.h:305-307 | the updated checksum is the recomputed one up to the two zeros |
| IcmpChecksum.UpdateIsDifference | src/dp_codec.h:490-500 | both 32-bit forms compute one's-complement subtraction, negative differences included |
| IcmpChecksum.EncapsDecapsRestores | src/dp_codec.h:490-500 | out and back restores the message, with the exact cases in which one zero becomes the other |
| IcmpChecksum.EchoReplyValidExactly | src/dp.c:1003-1008 | equation 3 of RFC 1624 gives a valid reply if and only if the request was valid and the reply is not all zero |
| IcmpChecksum.AsReplyKeepsRest | src/dp.c:994-1008 | a reply keeps code, identifier, sequence number and data, has type 0, and its checksum is eight more in one complement |
| IcmpChecksum.ZeroEchoReplyIsInvalid | src/dp.c:1003-1008 | the valid request whose reply is not |
| IcmpChecksum.ValidExactly | src/dp_codec.h:305-307 | a message is valid if and only if its words sum to a positive multiple of 65535 |
| IcmpChecksum.EncapsIcmp | src/dp_codec.h:282-318 | forwards if and only if a NAT port was found and the session header fits, with identifier and checksum rewritten in place whenever a port was found and every other word kept |
| IcmpChecksum.DecapsIcmp | src/dp_codec.h:472-508 | forwards exactly echo replies of a known session, with the host's identifier, every word but checksum and identifier kept, and keeps them valid |
| IcmpChecksum.AnswerEcho | src/dp.c:994-1008 | answers exactly echo requests, in the same buffer: type 0, code, identifier, sequence number and data unchanged |
| Ipv6Forward.ForwardedFrameFits | src/dp_ipv6.h:194-248 | a frame classified FORWARD encapsulates to a session frame whose length field matches its contents and fits section 7 of RFC 2516; only the hop limit changes and stays at least 1; its source is in the LAN prefix |
| Ipv6Forward.WanForwardedFrameFits | src/dp_ipv6.h:265-302 | a session frame classified FORWARD with hops left decapsulates to a LAN frame with the same tag whose IPv6 packet is well formed, goes to the LAN prefix and differs only in the hop limit, still at least 1 |
| Ipv6Forward.LanToCpExactly | src/dp_ipv6.h:194-219 | which LAN frames go to the control plane, by the bytes on the wire: well-formed neighbor discovery, gate open or not |
| Ipv6Forward.LanPassthroughExactly | src/dp_ipv6.h:220-226 | which pass: frames for another MAC, behind an open gate |
| Ipv6Forward.LanForwardExactly | src/dp_ipv6.h:194-248 | which are forwarded, which are too big, and that exactly the rest is dropped |
| Ipv6Forward.WanClassifyExactly | src/dp_ipv6.h:265-302 | each verdict on a session frame, by the bytes on the wire |
| Ipv6Forward.DecapsulatedEncapsulated | src/dp_ipv6.h:431-530 | decapsulation restores every byte but MACs, inner type and hop limit |
| Ipv6Forward.TripKeepsPacket | src/dp_ipv6.h:431-530 | two hops left over, only the hop limit differs after the trip |
| Ipv6Forward.PrefixRejectsUnroutableSources | src/dp_ipv6.h:227-231 | the prefix comparison also rejects multicast, link-local and unspecified sources if and only if the prefix itself is none of these |
| Ipv6Forward.TooBigReplyFits | src/dp_ipv6.h:322-360 | the Packet Too Big reply is well formed, at most 1280 bytes, from the gateway to the sender with hop limit 64, type 2 and MTU 1492, quotes a prefix of the original and is full-size if and only if the original is below 65536 bytes |
| Ipv6Forward.EncapMemoryIsFrame | src/dp_ipv6.h:431-466 | the in-place writes, overlapping copies included, leave the session frame and nothing else changed |
| Ipv6Forward.DecapMemoryIsFrame | src/dp_ipv6.h:492-530 | likewise on the way back, through temporaries |
| Ipv6Forward.MovedDown | src/dp_ipv6.h:448-450 | moving both headers down, the first copy does not reach what the second reads |
| Ipv6Forward.Packet.LanToWanEncap | src/dp_ipv6.h:431-466 | frame, offset and length after encapsulation, bytes outside untouched |
| Ipv6Forward.Packet.WanToLanForward | src/dp_ipv6.h:492-530 | the three outcomes exactly; unless OK nothing is touched |
| Capacity.ComputeMaxUserCount | src/init.c:218-300 | ERROR exactly when a page size is needed and unknown; the chosen count's real use plus the reserve fits whenever one subscriber's charge does, and one more would not |
| Capacity.ChosenCountFits | src/init.c:205-300 | the theorem behind it, over all components and pools |
| Capacity.CapacityExactly | src/init.c:205-216 | the charge fits if and only if a single subscriber's does; the count is maximal below the clamp |
| Capacity.SpanCoversLayout | src/init.c:146-178 | n spans cover n subscribers' objects packed together, for every object and page size |
| Capacity.SpanExactly | src/init.c:146-178 | and no smaller charge does: the span is the least one that covers the layout for every number of subscribers |
| Capacity.SharedPagesBound | src/init.c:146-178 | full pages and a partial last one cost at most a page share per object |
| Capacity.ObjectsDisjoint | src/init.c:146-178 | the layout the bound is about places objects without overlap |
| Capacity.SmallObjectsStayOnPage | src/init.c:146-178 | and without straddling pages |
| Capacity.LargeObjectsOwnPages | src/init.c:146-178 | and gives larger objects whole pages |
| Capacity.RingSlotsBound | src/init.c:268-271 | the power-of-two slot count is at most twice the objects |
| Capacity.RingSlotsExactly | src/init.c:268-271 | it is the least power of two that is large enough |
| Capacity.PoolCovered | src/init.c:180-188 | per-object charge plus fixed part cover pages, alignment slack and ring of a pool |
| Capacity.ChargePools | src/init.c:263-275 | the inner loop sums what the theorems call cost and fixed part |
| Capacity.CostAdds | src/init.c:255-290 | cost and fixed part add up over components, the statistics counted once |
| Capacity.PoolsCostAdds | src/init.c:263-275 | and over the pools of one |
| Capacity.OnePoolCosts | src/init.c:263-275 | what one pool adds to cost and fixed part |

## Left out

- NAT, connection tracking, the PPP state machines, DHCP, DNS and neighbour discovery: only their success or failure and what they leave of the modelled state.
- DPDK, NICs, rte_flow, gRPC, Kafka, the etcd client, JSON parsing, file I/O and threads: rings are bounded sequences, the hash is a map that may refuse a new key, documents are datatypes, and the outcome of an external call is a parameter.
- Weak memory: steps are sequentially consistent.
- Text forms of user ids ("01" and "1" name one subscriber), saturation in string conversion, and overflow of 64-bit revisions and byte totals.
- CLI commands, PPPoE dial and hang-up, verdict waiting and CLI payloads in queued mails: not part of this model.
- DNS record sets: their reconcile is simpler than that of subscriber configs.
- Keys under the listing prefix whose subscriber id cannot be read: they only make a listing answered that names nobody.
- Reconcile.ReconcileHeals: says nothing about the port-forward table of a removed subscriber, because removal does not clear it.
- Reconcile.RemoveCore and Reconcile.ApplyCore: their effect on VLANs and gates is in `VlanMap`; here a config is applied as one unit.
- The user count a capture start reads outside its lock: it is a parameter.
- Capture callbacks' copying into the ring, and the record header's contents.
- FieldMerge: the JSON members of an entry besides key and position are one payload.
- Mailbox: link mails that find the queue full are released by their producer and CLI payloads by their handlers; neither is followed further.
- MacTable.Table.Learn: when the hash can place a new key below its capacity is a parameter, because cuckoo placement is not modelled.
- ArpPending: concurrent use of one ring. What its callers do with a packet an empty pool refuses is in `Burst.DecapsOnceExactly`.
- Burst: the callers' use of a packet after its fate, fragmentation on the LAN data side, and the branch trees of `wan_ctrl_rx`, `lan_data_rx` and the distributor workers; there a fate is a parameter.
- FieldEdit: versions that cannot be read, which `OfflineSnapshot` has, and the merges themselves, which `FieldMerge` has.
- PortFwdRace: the hit counter, and stores seen out of order.
- OfflineSnapshot: writing the file once more at shutdown, and entries of the file that cannot be read one by one.
- IcmpChecksum: IPv4 header checksums, and big-endian hosts.
- Ipv6Forward: the firewall, neighbour-miss handling, and the ICMPv6 checksum of Packet Too Big, which is a parameter.
- Capacity: the object sizes themselves, and that a ring header is a whole number of cache lines, which is assumed.
