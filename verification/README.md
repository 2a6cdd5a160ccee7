# USB manager: verified core

This project models the parts of the USB manager service whose behaviour spans many requests, and proves what those
parts promise. It covers seven pieces of the service.

* **Interface claims.** Processes claim interfaces normally or exclusively; an exclusive owner leaves a callback and is
  watched for death. `ClaimProtocol` is the state machine, `ClaimService` the handlers over the string-keyed map,
  `ClaimRuns` what every run keeps, `ClaimAnswers` what callers are told, and `ClaimInterleaving` what is left when the
  exclusive claim is cut at its two lock sections; `ClaimNotices` says which owners are still watched. `DeviceKeys` and
  `KeyedMaps` justify the string keys and the prefix scans.
* **Device connections.** `ConnectionRegistry` says that what each listener has heard adds up to the map of open devices;
  `ConnectionHistory` reads the registry and the events off the history of requests; `ConnectionService` holds the
  handlers, with their loops over devices, apps and listeners; `ConnectionInterleaving` cuts a registration at its lock
  sections and says when a listener is still right.
* **Device policies.** `TypeTables` holds the two pattern tables, `HostPolicy` what each policy does to one device,
  `HostBroadcasts` what that means for the broadcasts at one address, `HostTables`, `HostTrust` and `HostReviews` what
  the passes do to the whole table, `HostRuns` and `HostCalls` what holds over whole runs, and `HostManager` the class
  with the nested loops; `HostDecisions` and `HostOutcomes` say what every request decides for every device, in terms of classes,
  ids and the HAL's answers only. `KeyOrder` is the order in which the device map keeps its keys.
* **Descriptors.** `DescriptorParser` is the cursor loop over length-prefixed records; `DescriptorTheorems` relates it to
  the encodings of the USB 2.0 specification.
* **Parcels.** `ParcelCodec` is the nested device codec as functions, `ParcelService` the writing and reading loops.
* **Rights.** `RightTable` is the table of time-bounded grants, `RightStore` the transactional store and the manager.
* **Two codecs.** `Base64` and `FunctionNames`.

Where the source changes state in place the model does: a class with the same fields, methods with the same branches and
loops, each proved against a function or relation on values. What the service promises is then proved about those.
`UsbTypes` holds the device tree and the integer widths. All modules are checked together (`dafny verify dfyconfig.toml`).

The HAL, the binder, the store, the clock and the device-management service are parameters: each request carries the
answers they give, and the theorems hold for all of them unless a condition is stated. A HAL that is asked about a device
several times within one policy run gives the same answer each time.

Some promises turn out to hold only under a condition, and are stated with the exact one:

* The exclusive claim drops its lock between check and record. A late record keeps what a whole claim promises if and only
  if the check would pass again (`ClaimInterleaving.CommitSoundIff`), and a run of such records is a run of whole requests
  (`RecheckedRunIsWhole`); `TwoGrants` and `OrphanEntry` are runs in which it does not.
* An owner's death clears its claim unless its recipient was spent or displaced when the claim was recorded
  (`ClaimNotices.UnwatchedIff`, `NoticeEndsUnlessUnwatched`, `EarlyNotice`).
* A listener agrees with the open connections after its registration if and only if the connections in its snapshot are
  still open at the replay, and later on until it is told of what it is wrong about
  (`ConnectionInterleaving.ReplayInTimeIff`, `StaleIff`); `StaleReplay` and `ListedTwice` are runs that go wrong.
* Map and HAL agree until one of three kinds of request splits them (`ClaimRuns.AgreesThroughoutIff`, `SplitAtOnce`).
* Broadcasts balance if and only if no arrival replaced an enabled device and none was announced twice
  (`HostRuns.BroadcastsBalancedIff`); the latter happens exactly when the trust list comes to a device that the serial
  policy has just disabled, and allows it. Both are told from the state before the arrival; `TwiceAnnounced` and
  `ReplacedSilently` are runs that fail.
* The trust-list pass decides a device if and only if the devices with its ids at or before it can be opened, and reports
  failure for the ids of the last device only (`HostTrust.TrustListDecides`, `ExecuteManageDevicePolicy`);
  `HostManager.EnforceInName` is a misleading answer.
* A device is reported as written to a parcel if and only if none of its own 19 writes is refused, and is there in full
  if and only if none of all its writes is (`ParcelService.MarshalDevice`, `LoseSilently`).
* Normal-expiry clean-up goes unnoticed if and only if periods are "forever" or at most the standard period plus one
  (`RightTable.SelectsOnlyDeadIff`), as they are in every table the service can reach (`CleanUpInvisibleAlways`).

## Model

| member | source | states |
|---|---|---|
| DeviceKeys.PrefixScanExact | services/native/src/usb_service.cpp:892-927 | The string-prefix scan for one device meets exactly the keys whose bus and device numbers are that device's, for all numbers and not only bytes. |
| DeviceKeys.ClaimKeyInjective | services/native/src/usb_service.cpp:871-874 | Two "bus-device-interface" keys are equal only for the same triple. |
| DeviceKeys.DeviceKeyInjective | services/native/src/usb_host_manager.cpp:1188-1224 | Two "bus-device" names are equal only for the same address. |
| ClaimService.ScanRepresents | services/native/src/usb_service.cpp:892-927 | A scan over the string-keyed map, on close or on detach, is the filter on (bus, device, interface) triples that the protocol prescribes. |
| ClaimService.UsbService.ClaimInterface | services/native/src/usb_service.cpp:829-849 | A normal claim is one protocol step: nothing on a HAL failure, otherwise the interface is marked normally claimed; the callback of a foreign owner is told, nobody else. |
| ClaimService.UsbService.NotifyExclusiveOwner | services/native/src/usb_service.cpp:851-869 | Marks the normal claim, creating the entry if there is none, and yields the owner's callback exactly when there is an owner other than the caller. |
| ClaimService.UsbService.CheckExclusiveTransfer | services/native/src/usb_service.cpp:876-890 | The look-up by string key gives the guard's verdict on the triple: refused exactly for a foreign sole owner. |
| ClaimService.UsbService.ClaimInterfaceExclusive | services/native/src/usb_service.cpp:929-960 | An exclusive claim is one protocol step with the protocol's answer, in every branch: repeat, foreign owner, normal claim, HAL failure, missing or unwatchable callback. |
| ClaimService.UsbService.RegisterExclusiveCallback | services/native/src/usb_service.cpp:962-984 | The second lock section: it records owner (unless a repeat), callback and recipient, or nothing when there is no callback or no death link. |
| ClaimService.UsbService.ReleaseClaimState | services/native/src/usb_service.cpp:1001-1041 | All six outcomes of a release: what becomes of the entry, what is answered, and whether the HAL is told. |
| ClaimService.UsbService.ReleaseInterface | services/native/src/usb_service.cpp:1043-1071 | A release is one protocol step, including the renaming of one HAL error. |
| ClaimService.UsbService.OnRemoteDied | services/native/src/usb_service.cpp:3082-3108 | A death notice is one protocol step; it is dropped when the interface has another owner by now. |
| ClaimService.UsbService.RemoveExclusiveClaimByDevice | services/native/src/usb_service.cpp:892-911 | Close: exactly the caller's ownerships on that device end; entries with a normal claim stay. |
| ClaimService.UsbService.RemoveAllClaimByDevice | services/native/src/usb_service.cpp:913-927 | Detach: exactly the entries of that device go. |
| ClaimRuns.ShapeAlways | services/native/src/usb_service.cpp:829-1071 | In every run of whole requests an entry has an owner or a normal claim, and callback and recipient are there exactly when there is an owner. |
| ClaimRuns.HalStepExact | services/native/src/usb_service.cpp:929-1071 | From a state in which map and HAL agree, a claim, release or death keeps them in agreement if and only if it is none of the splitting requests (unregistered callback on a free interface, or a full release the HAL refuses). |
| ClaimRuns.AgreesThroughoutIff | services/native/src/usb_service.cpp:829-1071 | Along any run of claim traffic from the empty service, map and HAL agree after every request if and only if no request is a splitting one. |
| ClaimRuns.SplitAtOnce | services/native/src/usb_service.cpp:941-984 | An exclusive claim without a callback as the first request claims at the HAL an interface the map knows nothing of. |
| ClaimRuns.HalAgreesAlways | services/native/src/usb_service.cpp:829-1071 | In every run of claims, exclusive claims, releases and owner deaths (no close, no detach) with a succeeding HAL and registering callbacks, the interfaces claimed at the HAL are exactly the keys of the claim map. |
| ClaimRuns.OwnershipIsHistory | services/native/src/usb_service.cpp:929-1071 | The owner field is a fact about the history: a token owns an interface if and only if some past request granted it and nothing after that ended it. |
| ClaimRuns.NormalClaimIsHistory | services/native/src/usb_service.cpp:829-1041 | The normal-claim flag likewise: set if and only if some normal claim has not been cleared since. |
| ClaimRuns.GuardIsHistory | services/native/src/usb_service.cpp:876-890 | A guarded transfer is refused if and only if somebody else's grant stands and no normal claim does. |
| ClaimRuns.ExclusivityHolds | services/native/src/usb_service.cpp:876-1041 | From a fresh grant until release, close, death, detach or a normal claim, every other token's guarded transfer, exclusive claim and release is refused and changes nothing. |
| ClaimRuns.NoticeReachesTheOwner | services/native/src/usb_service.cpp:851-869 | A normal claim notifies somebody if and only if another token's grant stands. |
| ClaimAnswers.ExclusiveAnswer | services/native/src/usb_service.cpp:929-960 | Over every run: an exclusive claim is answered busy if and only if another token's grant stands, or a normal claim does and the caller has no grant; otherwise the caller hears the HAL's answer as it is. |
| ClaimAnswers.ReleaseAnswer | services/native/src/usb_service.cpp:1001-1071 | Over every run: a release is refused if and only if another token's sole grant stands, succeeds without the HAL if it leaves another claim, and otherwise hears the HAL's answer, one code renamed. |
| ClaimAnswers.CallbackIsHistory | services/native/src/usb_service.cpp:962-984 | The callback of an owner is the one that came with its last registered exclusive claim. |
| ClaimAnswers.NoticeIsHistory | services/native/src/usb_service.cpp:851-869 | Over every run: a normal claim tells a callback if and only if it succeeds and another token's grant stands whose last registered claim carried that callback. |
| ClaimAnswers.RepeatIsTold | services/native/src/usb_service.cpp:962-984 | After a repeated exclusive claim the second callback is told. |
| ClaimAnswers.StoredIsHistory | services/native/src/usb_service.cpp:941-984 | Over every interleaving of the two lock sections: the stored callback is the one of the last record of the interface, unless it has been dropped since. |
| ClaimInterleaving.PairedAlways | services/native/src/usb_service.cpp:941-984 | With the claim cut into its two lock sections and any interleaving, callback and recipient are always both set or both clear, and an owner has both. |
| ClaimInterleaving.DeathHitsOnlyItsToken | services/native/src/usb_service.cpp:3082-3108 | However late it comes, a death notice for a token changes no entry but that of its interface, and only if that token is the owner at that moment. |
| ClaimInterleaving.CommitSoundIff | services/native/src/usb_service.cpp:941-984 | A late record gives its token sole ownership without taking it from another if and only if the check section would pass again at that moment. |
| ClaimInterleaving.RecheckedCommitIsWhole | services/native/src/usb_service.cpp:941-984 | A record that would pass the check again is a whole exclusive claim. |
| ClaimInterleaving.RecheckedRunIsWhole | services/native/src/usb_service.cpp:829-1071 | For every interleaved run in which each record would pass the check again there is a run of whole requests by real tokens that ends with the same claim map. |
| ClaimInterleaving.RecheckedOwnershipIsHistory | services/native/src/usb_service.cpp:829-1071 | So in such runs an owner is exactly a token with a standing grant, and every entry is well shaped. |
| ClaimInterleaving.QuietWindowIsAtomic | services/native/src/usb_service.cpp:929-984 | A claim during which no step touches its interface takes effect as one whole request, however other requests interleave. |
| ClaimInterleaving.TwoGrants | services/native/src/usb_service.cpp:941-984 | A run in which two tokens are both granted one interface, and the first is then refused its own transfers. |
| ClaimInterleaving.OrphanEntry | services/native/src/usb_service.cpp:941-984 | A run that leaves a callback and a recipient without an owner, which the token's next release does not remove. |
| ClaimNotices.UnwatchedStep | services/native/src/usb_service.cpp:941-984 | Any step leaves an owner whose death would not be noticed if and only if it records such a claim, or finds one and neither records over it nor ends it. |
| ClaimNotices.UnwatchedIff | services/native/src/usb_service.cpp:941-984 | Over every run: an owner is unwatched if and only if its claim was recorded after its recipient had spent its notice, or its recipient was displaced by a stale repeat of another token, and that still stands. |
| ClaimNotices.NoticeEndsUnlessUnwatched | services/native/src/usb_service.cpp:3082-3108 | Over every run: the unspent notice of the recipient recorded for an owned interface ends the ownership, unless the owner was left unwatched; then it changes nothing. |
| ClaimNotices.EarlyNotice | services/native/src/usb_service.cpp:962-984 | A run in which a process dies between check and record and is recorded as the owner all the same. |
| ConnectionService.ConnectionTracker.OpenDevice | services/native/src/usb_service.cpp:696-728 | Adding a connection is the registry's step: the record is stamped and stored, and every listener hears one connect event. |
| ConnectionService.ConnectionTracker.CloseDevice | services/native/src/usb_service.cpp:730-770 | Removing a connection is the registry's step; a record whose last app goes, goes itself; unknown devices and apps change nothing. |
| ConnectionService.ConnectionTracker.RemoveAllDeviceConnections | services/native/src/usb_service.cpp:774-797 | A detach removes the record and tells every listener of each of its apps exactly once. |
| ConnectionService.ConnectionTracker.RegisterConnectionListener | services/native/src/usb_service.cpp:552-608 | Registration: a known listener and one that cannot be watched are refused; a new one hears every open connection exactly once. |
| ConnectionService.ConnectionTracker.UnRegisterConnectionListener | services/native/src/usb_service.cpp:612-665 | The listener is taken out and nothing else changes. |
| ConnectionService.ConnectionTracker.CollectReplay | services/native/src/usb_service.cpp:580-608 | The walk over devices and their apps names every open connection exactly once, whatever the order. |
| ConnectionRegistry.FoldReplay | services/native/src/usb_service.cpp:580-608 | Folding any replayed connect events builds exactly the view they name. |
| ConnectionRegistry.FoldFarewells | services/native/src/usb_service.cpp:774-797 | Folding the farewells of one device removes exactly its connections, and each of them was known before. |
| ConnectionRegistry.DetachStep | services/native/src/usb_service.cpp:774-797 | A detach keeps every listener's view in agreement with the registry, in whatever order the farewells come. |
| ConnectionRegistry.StepKeeps | services/native/src/usb_service.cpp:552-797 | Every request keeps: no record without apps, distinct listeners, and for each listener a view equal to the registry. |
| ConnectionRegistry.ListenersAgreeAlways | services/native/src/usb_service.cpp:552-797 | After every run of requests, what each listener has heard since it registered folds to exactly the open (device, uid) pairs with their bundle names, and nobody is told of the end of a connection it was not told of. |
| ConnectionHistory.OpenIsHistory | services/native/src/usb_service.cpp:696-797 | Over every run: an app holds a device open under a bundle name if and only if it opened it so, and has neither opened it again nor closed it since, and the device has not left. |
| ConnectionHistory.DeviceIsHistory | services/native/src/usb_service.cpp:696-728 | The descriptor that events carry is the one read last for the address. |
| ConnectionHistory.OpenTells | services/native/src/usb_service.cpp:716-728 | A successful open tells every listener of that one connection, with the descriptor just read. |
| ConnectionHistory.CloseTells | services/native/src/usb_service.cpp:730-770 | A close tells every listener of the end of that one connection, if it was open. |
| ConnectionHistory.DetachTells | services/native/src/usb_service.cpp:774-797 | A detach tells every listener, once each, of the end of exactly the connections to the device that it knows of, under the bundle names that it knows. |
| ConnectionHistory.RegisterTells | services/native/src/usb_service.cpp:587-606 | A new listener is told, once each, of exactly the open connections. |
| ConnectionInterleaving.NewsExact | services/native/src/usb_service.cpp:696-797 | Whatever a listener believed, after the news of a request it is right about exactly the connections the request is about, and nothing changes about the others. |
| ConnectionInterleaving.FoldRepeated | services/native/src/usb_service.cpp:669-689 | A listener that is listed several times, and told everything as often, comes to the same view. |
| ConnectionInterleaving.SoundAlways | services/native/src/usb_service.cpp:563-606 | Over every interleaving of the four sections of registrations with other requests: an open connection that a listed listener does not know of is in the hands of a thread that is still registering that listener. |
| ConnectionInterleaving.StaleStep | services/native/src/usb_service.cpp:563-606 | A move leaves a listener with a wrong belief about a connection if and only if it replays one that has ended or changed since the snapshot, or finds such a belief and tells nothing of the connection. |
| ConnectionInterleaving.StaleIff | services/native/src/usb_service.cpp:563-606 | Over every run: a listener believes of a connection what is not so if and only if such a replay told it, and nothing has been told of the connection since. |
| ConnectionInterleaving.AgreeIff | services/native/src/usb_service.cpp:563-606 | A listener whose registrations are all over has a view equal to the registry if and only if no replay has left it stale. |
| ConnectionInterleaving.ReplayInTimeIff | services/native/src/usb_service.cpp:587-606 | After the replay of a registration that no other one of the listener disturbed, the view equals the registry if and only if every connection open at the snapshot is still open under the same bundle at the replay, whatever happened in between. |
| ConnectionInterleaving.DistinctIff | services/native/src/usb_service.cpp:563-585 | No listener is ever listed twice if and only if none is listed already at the moment its entry is added. |
| ConnectionInterleaving.WholeIsStep | services/native/src/usb_service.cpp:610-797 | While no listener is listed twice, each other request is the step of `ConnectionRegistry`. |
| ConnectionInterleaving.UndisturbedIsStep | services/native/src/usb_service.cpp:552-608 | The four sections in a row are the registration step of `ConnectionRegistry`. |
| ConnectionInterleaving.StaleReplay | services/native/src/usb_service.cpp:587-606 | A run in which a connection closes between snapshot and replay, and the listener still has it when nothing is open any more. |
| ConnectionInterleaving.ListedTwice | services/native/src/usb_service.cpp:563-634 | A run in which two threads list one listener twice, and it is still listed after it has unregistered. |
| TypeTables.DeviceTableDisjoint | interfaces/innerkits/native/include/usb_interface_type.h:137-163 | No class triple falls under two patterns of the device table. |
| TypeTables.InterfaceTableDisjoint | interfaces/innerkits/native/include/usb_interface_type.h:165-231 | No class triple falls under two patterns of the interface table. |
| HostPolicy.AuthorizeKeepsImbalance | services/native/src/usb_host_manager.cpp:1552-1602 | Authorising a device keeps (attached minus detached broadcasts) minus (is enabled), whatever the HAL answers. |
| HostPolicy.DeviceWalkOrderFree | services/native/src/usb_host_manager.cpp:2130-2162 | For every order of the device table the device is decided by the pattern it falls under, and left alone in none. |
| HostPolicy.InterfaceWalkOrderFree | services/native/src/usb_host_manager.cpp:2082-2128 | For every order of the interface table each interface of the active configuration is decided by its own pattern, and nothing else of the device changes. |
| HostPolicy.TypePolicyOrderFree | services/native/src/usb_host_manager.cpp:1650-1670 | Two orders of the unordered tables give the same final device, interface flags, device-level HAL calls and broadcasts. |
| HostPolicy.PatternDecides | services/native/src/usb_host_manager.cpp:1968-2162 | A device the pass handles that falls in a pattern ends disabled if and only if (some rule selects the pattern) equals `disable`. |
| HostPolicy.UsbTypeExact | services/native/src/usb_host_manager.cpp:2322-2413 | Under the permissive policy a device ends disabled if and only if (it matches some rule) equals `disable`, or, where the serial policy holds it or the HAL refuses, if and only if it was; every interface looked at is decided by the rules alone. |
| HostPolicy.UsbTypeIdempotentIff | services/native/src/usb_host_manager.cpp:2322-2413 | Repeating the permissive policy makes no device-level HAL call, no broadcast and no change, if and only if the HAL authorises, the device is held, or nothing was to change anyway. |
| HostPolicy.RoundsSettle | services/native/src/usb_host_manager.cpp:1623-1648 | However often the quadratic trust-list pass comes back to a device, its state is as after the first time; with a succeeding HAL there is no further call either. |
| HostPolicy.PassKeepsImbalance | services/native/src/usb_host_manager.cpp:2015-2162 | Every pass over a device keeps the broadcast books and the identity of the device, whatever the HAL answers. |
| HostBroadcasts.StrategyKeepsImbalance | services/native/src/usb_host_manager.cpp:221-259 | A whole strategy run keeps the broadcast books of every device, whatever the policy and the HAL. |
| HostBroadcasts.SerialDisabledIff | services/native/src/usb_host_manager.cpp:221-259 | With the serial policy on, a strategy run leaves a serial device disabled if and only if the trust list, coming to it, does not enable it again; a global ban or a refusing HAL leaves it as it was. |
| HostBroadcasts.TypePolicyPublishesNothing | services/native/src/usb_host_manager.cpp:1650-1670 | Because patterns are disjoint, the type policy never enables a device that has just arrived. |
| HostBroadcasts.PublishedIff | services/native/src/usb_host_manager.cpp:1226-1275 | A strategy run publishes a newly arrived device itself if and only if the serial policy disables it and the trust list enables it again. |
| HostBroadcasts.ArrivalImbalance | services/native/src/usb_host_manager.cpp:1226-1275 | An arrival leaves the books balanced up to what it found and that one double announcement. |
| KeyOrder.LeqIsTotalOrder | services/native/src/usb_host_manager.cpp:1628-1642 | The order in which the device map keeps its string keys is total. |
| KeyOrder.LeqIff | services/native/src/usb_host_manager.cpp:1628-1642 | In that order the first place where two keys differ decides, and a prefix comes first. |
| HostTrust.SweepEnds | services/native/src/usb_host_manager.cpp:2058-2080 | A walk in key order that stops at the first device that cannot be opened has authorised exactly the wanted devices all of whose wanted predecessors, and itself, can be. |
| HostTrust.ReachedIff | services/native/src/usb_host_manager.cpp:1623-1648 | The quadratic pass comes to a device at all if and only if it is no hub and every non-hub device with its ids at or before it in key order can be opened. |
| HostTrust.TrustTurn | services/native/src/usb_host_manager.cpp:1628-1642 | Each turn of the outer loop is one more round for exactly the reachable devices with the ids of its device. |
| HostTrust.TrustListDecides | services/native/src/usb_host_manager.cpp:1623-1648 | For every device: after the pass it is disabled if and only if the list is non-empty and lacks its (vendor, product), where the pass comes to it and the HAL authorises; otherwise if and only if it was. |
| HostReviews.SerialsDisabled | services/native/src/usb_host_manager.cpp:221-259 | A strategy run with the serial policy on that takes a type-policy branch ends with every serial device disabled whatever the rules, unless the HAL refuses one that was not. |
| HostReviews.ReviewedKeeps | services/native/src/usb_host_manager.cpp:221-259 | A strategy run keeps the books and the identity of every device in the table. |
| HostRuns.StructuredAlways | services/native/src/usb_host_manager.cpp:1140-1275 | In every reachable state each key is the name of its device, and the serial list has no duplicates and only present devices. |
| HostRuns.StepBooks | services/native/src/usb_host_manager.cpp:1188-1275 | Any request moves the broadcast books of any address by exactly its upset there, which can be told from the state and the request beforehand. |
| HostRuns.BooksOverRuns | services/native/src/usb_host_manager.cpp:1188-1275 | Over every run and at every address, attached minus detached broadcasts is (1 for an enabled device, else 0) plus the upsets. |
| HostRuns.BroadcastsBalancedIff | services/native/src/usb_host_manager.cpp:1188-1275 | The balance is 1 exactly while the address holds an enabled device, if and only if no arrival there replaced an enabled device, and none was announced twice: a non-hub serial device on the trust list, openable with all devices of its ids before it, that the HAL authorises, under a policy that disables serial devices and has no rules. |
| HostRuns.TwiceAnnounced | services/native/src/usb_host_manager.cpp:1226-1275 | The first arrival of a serial device that is on the trust list ends with two attached broadcasts for one enabled device. |
| HostRuns.ReplacedSilently | services/native/src/usb_host_manager.cpp:1236-1246 | A second arrival at the address of an enabled device ends with two attached broadcasts for one enabled device. |
| HostCalls.HalToldAlways | services/native/src/usb_host_manager.cpp:1552-1602 | Over every run and at every address: a device is not disabled if and only if the last HAL call that succeeded since it appeared, if any, turned it on; and every call, refused or not, asked for the opposite of what was. |
| HostCalls.OnIsLastSuccess | services/native/src/usb_host_manager.cpp:1552-1602 | What the HAL has a device at is given by its appearance or the last successful call after it. |
| HostDecisions.GlobalRequestDecides | services/native/src/usb_host_manager.cpp:2015-2056 | For every device: a global ban disables it if and only if it is a hub that the serial policy does not hold and the HAL agrees; lifting it enables a device that is not held if the HAL agrees, and authorises every interface of the active configuration of one that is not held and opens; nothing else changes. |
| HostDecisions.SerialPolicyDecides | services/native/src/usb_host_manager.cpp:2212-2224 | For every device: the serial policy decides exactly the serial devices whose HAL agrees. |
| HostDecisions.IdsDecide | services/native/src/usb_host_manager.cpp:2058-2080 | For every device: a request by ids decides exactly the devices with these ids, no hubs, that no shut device with the ids precedes, and whose HAL agrees. |
| HostDecisions.TrustListRequestDecides | services/native/src/usb_host_manager.cpp:1623-1648 | For every device the pass comes to and whose HAL agrees: disabled if and only if the list is not empty and lacks its ids; every other device stays as it was. |
| HostDecisions.FailureIff | services/native/src/usb_host_manager.cpp:1623-1648 | The condition under which the trust-list pass reports failure is that a shut device, no hub, has the ids of the last device in the table. |
| HostDecisions.TypeRequestDecides | services/native/src/usb_host_manager.cpp:1650-1670 | For every device and every interface looked at: the pattern whose class triple, -1 standing for any, takes it in decides, by whether a rule falls under the pattern; nothing else changes. |
| HostDecisions.UsbTypeRequestDecides | services/native/src/usb_host_manager.cpp:2322-2413 | For every device and every interface looked at: whether a rule of its kind matches its class triple decides; nothing else changes. |
| HostOutcomes.StrategyRequestDecides | services/native/src/usb_host_manager.cpp:221-259 | For every device a strategy run is: the ban, or else the serial policy and then the rules, by the tables or by themselves, or where there are none the trust list; all spelled out by classes, ids and HAL answers. |
| HostOutcomes.ArrivalDecides | services/native/src/usb_host_manager.cpp:1226-1275 | An arrival puts the new device in its place, lists it as serial exactly if its port is, runs the strategy over all devices with it among them, and enables it unless that disabled it. |
| HostOutcomes.RemovalDecides | services/native/src/usb_host_manager.cpp:1188-1224 | A removal takes exactly the device at the address, from the table and the serial list, and announces it if and only if it was enabled. |
| HostManager.FindMatchingTypes | services/native/src/usb_host_manager.cpp:1991-2013 | The first-match search through an unordered table finds, for all rules together, exactly the patterns some rule of the right kind selects. |
| HostManager.AuthorizeFaces | services/native/src/usb_host_manager.cpp:2104-2125 | The loop over interfaces sets the flag of exactly the covered ones. |
| HostManager.IsMatched | services/native/src/usb_host_manager.cpp:2350-2359 | The rule loop finds out whether any rule covers the triple. |
| HostManager.AuthorizeUsbFaces | services/native/src/usb_host_manager.cpp:2395-2409 | Every interface gets the flag the rules decide for it. |
| HostManager.SplitRules | services/native/src/usb_host_manager.cpp:2324-2335 | The loop gives the rules for devices and those for interfaces; a match-all rule is in both. |
| HostManager.InTrustList | services/native/src/usb_host_manager.cpp:1629-1635 | The search in the trust list is membership of the (vendor, product) pair. |
| HostManager.UsbHostManager.constructor | interfaces/innerkits/native/include/usb_interface_type.h:137-231 | An empty manager whose two tables are the real ones in some order, whose names are the "bus-device" strings and distinct, and whose key order is that of strings. |
| HostManager.UsbHostManager.GetTargetDevice | services/native/src/usb_host_manager.cpp:1140-1152 | The scan by bus and device number finds the device that a look-up by name would, and only that. |
| HostManager.UsbHostManager.IsUsbSerialDevice | services/native/src/usb_host_manager.cpp:2202-2210 | The scan is membership in the list of serial devices. |
| HostManager.UsbHostManager.UsbDeviceAuthorize | services/native/src/usb_host_manager.cpp:1552-1602 | Authorises the named device and touches no other; an unknown name, a needless change and a HAL refusal are told apart in answer and effect. |
| HostManager.UsbHostManager.ManageDeviceTypeImpl | services/native/src/usb_host_manager.cpp:2130-2162 | One pass of one device pattern over the whole table: every device takes its step, none is missed or done twice. |
| HostManager.UsbHostManager.ManageInterfaceTypeImpl | services/native/src/usb_host_manager.cpp:2082-2128 | One pass of one interface pattern over the whole table. |
| HostManager.UsbHostManager.ManageUsbTypeDeviceImpl | services/native/src/usb_host_manager.cpp:2342-2365 | The device pass of the permissive policy over the whole table. |
| HostManager.UsbHostManager.ManageUsbTypeInterfaceImpl | services/native/src/usb_host_manager.cpp:2367-2413 | The interface pass of the permissive policy over the whole table. |
| HostManager.UsbHostManager.ManageGlobalInterfaceImpl | services/native/src/usb_host_manager.cpp:2015-2056 | The global pass: disabling acts on hubs only, enabling enables the active interfaces too, serial devices are left out while the serial policy is on. |
| HostManager.UsbHostManager.ExecuteManageDeviceType | services/native/src/usb_host_manager.cpp:1968-1989 | The nested loops over table, rules and devices do to every device the walk over the table. |
| HostManager.UsbHostManager.ExecuteManageInterfaceType | services/native/src/usb_host_manager.cpp:1650-1670 | Every device goes through the type policy, devices first, then interfaces. |
| HostManager.UsbHostManager.ExecuteManageUsbType | services/native/src/usb_host_manager.cpp:2322-2340 | Every device goes through the permissive policy. |
| HostManager.UsbHostManager.ManageDeviceImpl | services/native/src/usb_host_manager.cpp:2058-2080 | In key order, authorises exactly the non-hub devices with the given ids up to the first that cannot be opened; the answer says whether all could. |
| HostManager.UsbHostManager.ExecuteManageDevicePolicy | services/native/src/usb_host_manager.cpp:1623-1648 | The quadratic pass gives every device its exact number of rounds; it reports failure if and only if a device with the ids of the last one in key order cannot be opened. |
| HostManager.UsbHostManager.AuthorizeSerialDevices | services/native/src/usb_host_manager.cpp:2212-2224 | The loop over the serial list authorises exactly the serial devices, once each. |
| HostManager.UsbHostManager.ExecuteStrategy | services/native/src/usb_host_manager.cpp:221-259 | Every device goes through the strategy of `HostPolicy`, in every branch of the policy: the step `RunStrategy` of the run model. |
| HostManager.UsbHostManager.ManageUsbSerialDevice | services/native/src/usb_host_manager.cpp:2212-2224 | Disabling is the step of the serial pass; enabling is that step and then a strategy run. |
| HostManager.UsbHostManager.AddUsbSerialDevice | services/native/src/usb_host_manager.cpp:2173-2200 | A listed device joins the serial list once; the list keeps only present devices, without repetition. |
| HostManager.UsbHostManager.AddDevice | services/native/src/usb_host_manager.cpp:1226-1275 | The step `Arrive` of the run model: an arrival at its own address and a review at every other; the state stays well structured. |
| HostManager.ArrivedInAll | services/native/src/usb_host_manager.cpp:1226-1275 | What was placed, reviewed and published is, at every address, the step of the run model. |
| HostManager.UsbHostManager.DelDevice | services/native/src/usb_host_manager.cpp:1188-1224 | The step `Leave` of the run model: removal announces an enabled device only, drops it from the table and its address from the serial list, and touches nothing else. |
| HostManager.UsbHostManager.ManageGlobalInterface | services/native/src/usb_host_manager.cpp:405-408 | The request is the global pass of the run model. |
| HostManager.UsbHostManager.ManageDevice | services/native/src/usb_host_manager.cpp:410-414 | The request is the walk by ids of the run model, with its answer. |
| HostManager.UsbHostManager.ManageDevicePolicy | services/native/src/usb_host_manager.cpp:416-419 | The request is the trust-list pass of the run model, with its answer. |
| HostManager.UsbHostManager.ManageInterfaceType | services/native/src/usb_host_manager.cpp:421-424 | The request is the type policy of the run model. |
| HostManager.UsbHostManager.ManageUsbType | services/native/src/usb_host_manager.cpp:426-430 | The request is the permissive policy of the run model. |
| HostManager.AnnounceTwice | services/native/src/usb_host_manager.cpp:1226-1275 | A fresh manager that is given one trusted serial device has announced it twice. |
| HostManager.ReplaceSilently | services/native/src/usb_host_manager.cpp:1236-1246 | A fresh manager that is given a device twice has announced it twice and its end never. |
| HostManager.EnforceInName | services/native/src/usb_host_manager.cpp:1623-1648 | A fresh manager with two enabled devices, of which the first is not on the trust list and cannot be opened, answers that the list is enforced, and the first stays enabled. |
| DescriptorParser.ParseConfigDescriptors | services/native/src/usb_descriptor_parser.cpp:139-191 | The cursor loop reads in bounds, ends, and gives the code and the tree of the record-by-record parse, for every buffer and offset. |
| DescriptorParser.ConfigVector.AddInterface | services/native/src/usb_descriptor_parser.cpp:94-115 | In document order the tree grows by just this interface; earlier configurations and interfaces are untouched; without a configuration it is refused and nothing changes. |
| DescriptorParser.ConfigVector.AddEndpoint | services/native/src/usb_descriptor_parser.cpp:117-137 | In document order the tree grows by just this endpoint, at the interface opened last, whose id's low byte it carries; without an interface it is refused and nothing changes. |
| DescriptorParser.FramesCover | services/native/src/usb_descriptor_parser.cpp:147-157 | Whole records and tail make up the buffer, and no whole record starts at the tail. |
| DescriptorParser.FramesUnique | services/native/src/usb_descriptor_parser.cpp:147-157 | A buffer has one framing only. |
| DescriptorParser.ParseReadsFrames | services/native/src/usb_descriptor_parser.cpp:139-191 | Parsing is reading the whole records in order. |
| DescriptorTheorems.TailIgnored | services/native/src/usb_descriptor_parser.cpp:147-157 | A buffer with a broken or cut-off tail parses to the same result as its whole records. |
| DescriptorTheorems.TailIsShortest | services/native/src/usb_descriptor_parser.cpp:147-157 | No longer prefix is made of whole records. |
| DescriptorTheorems.UnknownRecordIgnored | services/native/src/usb_descriptor_parser.cpp:158-190 | A record of an unknown type can stand anywhere between records without changing the parse. |
| DescriptorTheorems.AcceptedIffWellNested | services/native/src/usb_descriptor_parser.cpp:94-191 | A buffer is accepted if and only if every known record has its legal size, every interface comes after a configuration, and every endpoint after an interface of the latest configuration. |
| DescriptorTheorems.ParseCounts | services/native/src/usb_descriptor_parser.cpp:139-191 | On success each level gains exactly as many nodes as the whole records hold of its type. |
| DescriptorTheorems.ParseInDocumentOrder | services/native/src/usb_descriptor_parser.cpp:139-191 | On success the tree, read in document order, has gained exactly what the whole records say, in their order: nothing lost, added, repeated or moved. |
| DescriptorTheorems.EndpointsAlwaysTagged | services/native/src/usb_descriptor_parser.cpp:117-137 | Whatever the buffer, every endpoint carries the id of the interface it is in. |
| DescriptorTheorems.RoundTrip | services/native/src/usb_descriptor_parser.cpp:77-191 | Parsing the encoding of any configuration, interface and endpoint tree (7- or 9-byte endpoint records; sections 9.6.3, 9.6.5 and 9.6.6 of the USB 2.0 specification), with any broken tail behind it, gives that tree back. The encoder writes the standard's own bytes: types 2, 4 and 5, lengths 9, 9, and 7 or 9. |
| DescriptorTheorems.DeviceRoundTrip | services/native/src/usb_descriptor_parser.cpp:41-74 | The device descriptor of section 9.6.1 of the USB 2.0 specification is read back field by field, whatever follows it. |
| DescriptorTheorems.DeviceAcceptedIff | services/native/src/usb_descriptor_parser.cpp:41-74 | A device buffer is accepted if and only if it begins with such a record; otherwise the device stays as it was. |
| ParcelCodec.ListRoundTrip | interfaces/innerkits/native/include/usb_device.h:79-84 | Reading a counted list with an inverse reader gives the list of cut elements and leaves exactly what followed. |
| ParcelCodec.EndpointRoundTrip | interfaces/innerkits/native/include/usb_endpoint.h:52-74 | A written endpoint is read back and the rest is left unread. |
| ParcelCodec.InterfaceRoundTrip | interfaces/innerkits/native/include/usb_interface.h:74-118 | A written interface is read back with its first 128 endpoints and the default authorisation. |
| ParcelCodec.ConfigRoundTrip | interfaces/innerkits/native/include/usb_config.h:70-112 | A written configuration is read back with its first 128 interfaces. |
| ParcelCodec.DeviceRoundTrip | interfaces/innerkits/native/include/usb_device.h:59-125 | A written device followed by any further cells is read back cut to 128 at each level, without authorisation state and descriptor count, and leaves exactly the further cells. |
| ParcelCodec.DeviceLength | interfaces/innerkits/native/include/usb_device.h:59-86 | A full encoding of a device is exactly as many cells as `DeviceCost` counts writes: its own 19 and those of all that travels of its configurations, interfaces and endpoints. |
| ParcelCodec.CutIsIdentity | interfaces/innerkits/native/include/usb_device.h:59-125 | The cut device is the device itself if no list is longer than 128 and the uncarried fields have their defaults. |
| ParcelCodec.DeviceArrives | interfaces/innerkits/native/include/usb_device.h:59-125 | Index by index: of every list at every level the first 128 elements arrive in their places, of a list whose size does not fit in 32 bits as many as its low bits say; all else arrives as it was, save the three uncarried fields. |
| ParcelCodec.DeviceOnTheWire | interfaces/innerkits/native/include/usb_device.h:59-86 | Each of the device's own 19 fields is in its place among the cells. |
| ParcelCodec.ConfigOnTheWire | interfaces/innerkits/native/include/usb_config.h:70-88 | Each of the configuration's own 6 fields is in its place. |
| ParcelCodec.InterfaceOnTheWire | interfaces/innerkits/native/include/usb_interface.h:74-92 | Each of the interface's own 8 fields is in its place. |
| ParcelCodec.EndpointOnTheWire | interfaces/innerkits/native/include/usb_endpoint.h:52-60 | Each of the endpoint's 5 fields is in its place. |
| ParcelService.MarshalConfigs | interfaces/innerkits/native/include/usb_device.h:79-84 | The loop appends the codec's cells of all configurations that travel if and only if none of their writes is refused, and fewer cells otherwise, although the answers of the nested calls are not looked at. |
| ParcelService.MarshalDevice | interfaces/innerkits/native/include/usb_device.h:59-86 | The answer is true if and only if none of the device's own 19 writes is refused; exactly the codec's cells have been appended if and only if none of all its `DeviceCost` writes is, and fewer cells otherwise. |
| ParcelService.UnmarshalDevice | interfaces/innerkits/native/include/usb_device.h:88-125 | The nested reading loops give the codec's device and consume exactly its cells, for every parcel. |
| ParcelService.SendDevice | interfaces/innerkits/native/include/usb_device.h:59-125 | If no write is refused, writing and reading again gives the cut device, and what was sent after it is still unread; otherwise cells are missing, and a true answer still means that the first 19 writes went through. |
| ParcelService.LoseSilently | interfaces/innerkits/native/include/usb_device.h:79-85 | A device with a configuration is reported as written although the first write of that configuration was refused and cells are missing. |
| RightTable.UniqueAlways | services/native/src/usb_right_db_helper.cpp:564-662 | Over every run of grants, removals and clean-ups there is at most one row per user, device, app and token. |
| RightTable.SelectsOnlyDeadIff | services/native/src/usb_right_db_helper.cpp:65-93 | Normal clean-up selects only rows that are, and stay, expired, if and only if the row's period is "forever" or at most one second above the standard period. |
| RightTable.CleanUpInvisible | services/native/src/usb_right_db_helper.cpp:438-453 | With such periods clean-up at `now` changes no answer for any key at any time from `now` on. |
| RightTable.CleanUpInvisibleAlways | services/native/src/usb_right_db_helper.cpp:438-453 | After any run of requests from the empty table, clean-up at `now` changes no answer from `now` on. |
| RightTable.CleanUpVisible | services/native/src/usb_right_db_helper.cpp:438-453 | For every other period there is a table whose answer clean-up changes. |
| RightTable.RowIsHistory | services/native/src/usb_right_db_helper.cpp:65-93 | Over every run a row is in the table if and only if some request granted it and none since has rewritten or deleted it; failed requests do neither. |
| RightTable.RightIsHistory | services/native/src/usb_right_manager.cpp:172-190 | Over every run a user has a right at a time if and only if it is the console user, or a grant less than the standard period before that time has been neither rewritten nor undone since. |
| RightTable.StandsThrough | services/native/src/usb_right_db_helper.cpp:438-465 | Requests that do not rewrite or delete a granted row, clean-up up to the time of asking included, leave it, or take it only after its time. |
| RightTable.GrantWindow | services/native/src/usb_right_manager.cpp:403-436 | After a grant at t, through every run that neither rewrites nor deletes its row (clean-up may run until t'), the right is there exactly for t <= t' < t + 0x0FFFFFFF. |
| RightTable.RemovalRevokes | services/native/src/usb_right_manager.cpp:438-457 | A removal ends the right at once, at whatever time one asks. |
| RightTable.HasRightIff | services/native/src/usb_right_db_helper.cpp:65-93 | A row gives its right from its request on: for good if its period is 0 or 0xFFFFFFFF, and for its period otherwise. |
| RightTable.GrantOutlivesCleanUpIff | services/native/src/usb_right_manager.cpp:864-912 | After the clean-up that follows installations a grant is good, within its time, if and only if the app is still installed as it was at the grant and no other row of it is from another installation. |
| RightStore.RightManager.AddOrUpdateRightRecord | services/native/src/usb_right_db_helper.cpp:564-662 | All or nothing: it succeeds exactly when no store call fails, none left a transaction open, and the row id, narrowed to 32 bits, is not negative; otherwise the table is as before, or the transaction open if its rollback failed. |
| RightStore.RightManager.DeleteAndNoOtherOperation | services/native/src/usb_right_db_helper.cpp:320-350 | Deletes exactly the selected rows, reports an empty deletion as an error, and undoes a failed one. |
| RightStore.RightManager.DeleteAppsRightRecord | services/native/src/usb_right_db_helper.cpp:414-424 | Deletes exactly the rows of the listed apps. |
| RightStore.RightManager.QueryAndGetResult | services/native/src/usb_right_db_helper.cpp:136-161 | A query in a transaction of its own never changes the table, leaves a transaction open only if its rollback fails, and returns exactly the readable rows it selects. |
| RightStore.RightManager.AddDeviceRight | services/native/src/usb_right_manager.cpp:403-436 | A grant is the table's step: the row of the key becomes exactly the granted one, with install, update and request time and the standard period in their columns, and every other row stays; the console user is granted without a row. |
| RightStore.RightManager.RemoveDeviceRight | services/native/src/usb_right_manager.cpp:438-457 | A removal is the table's step; removing what is not there is a failure. |
| RightStore.RightManager.CleanUpRightNormalExpired | services/native/src/usb_right_manager.cpp:977-986 | Normal clean-up is the table's step, or is undone; the code tells failure, nothing to do and done apart. |
| RightStore.RightManager.CleanUpRightTemporaryExpired | services/native/src/usb_right_manager.cpp:963-975 | Deletes exactly the temporary rows of one device, or is undone, with the same codes. |
| RightStore.RightManager.CleanUpRightUserStopped | services/native/src/usb_right_manager.cpp:952-961 | Deletes exactly the rows of one user, or is undone, with the same codes. |
| RightStore.RightManager.CleanUpRightAppReinstalled | services/native/src/usb_right_manager.cpp:864-912 | The rows that go are exactly those of apps that the queries found and that have a readable row from another installation than the current one (with every row readable: an app's rows survive if and only if all of them were granted under the current one); a failed query or an unknown app stops the clean-up with table and transaction unchanged, save for a transaction left open by a failing rollback. |
| RightStore.RightManager.QueryRightRecord | services/native/src/usb_right_db_helper.cpp:163-180 | The query returns exactly the rows of the key that can be read from its result, or an error, and leaves the table alone, and the transaction unless its rollback fails. |
| RightStore.RightManager.HasRight | services/native/src/usb_right_manager.cpp:172-190 | Yes if and only if the caller is the console user, or the query went through and read an unexpired row; with every row readable, the table's answer. Table and transaction are as before, unless a rollback fails. |
| RightStore.AskAfterInstallation | services/native/src/usb_right_manager.cpp:864-912 | A grant, the clean-up and a question on a store whose calls succeed: the answer is yes if and only if the time is right, the app is still installed as it was at the grant, and so it was for all its other rows. |
| RightStore.DeletesIff | services/native/src/usb_right_db_helper.cpp:320-350 | A deletion that changes no row count selected nothing. |
| Base64.DecodeGroup | services/native/src/usb_accessory_manager.cpp:446-456 | The four look-ups and three packings of a full group. |
| Base64.Base64Decode | services/native/src/usb_accessory_manager.cpp:436-488 | The decoder gives the packed values of the longest alphabet prefix of what its signed counter lets it see, which for texts below 2^31 characters is the whole text: neither what follows nor the filler of a short group matters. |
| Base64.DecodedLength | services/native/src/usb_accessory_manager.cpp:436-488 | The result has 3*(n/4) + max(0, n%4 - 1) bytes for a prefix of n characters. |
| Base64.PackUnpack | services/native/src/usb_accessory_manager.cpp:446-479 | Packing inverts the six-bit cut of section 4 of RFC 4648 on every byte string. |
| Base64.RoundTrip | services/native/src/usb_accessory_manager.cpp:436-488 | The decoder inverts the encoder of section 4 of RFC 4648 on every byte string, with or without padding and whatever non-alphabet text follows. |
| FunctionNames.Split | services/native/src/usb_device_manager.cpp:308-318 | The splitting loop yields the items between commas, none after a last comma. |
| FunctionNames.ConvertFromString | services/native/src/usb_device_manager.cpp:297-332 | The parser returns the union of the item masks, or the error value for the empty text and for an unknown item. |
| FunctionNames.ConvertToString | services/native/src/usb_device_manager.cpp:334-352 | The printer joins the names whose bits are set, or prints "none" outside the printable range. |
| FunctionNames.ItemsOfJoin | services/native/src/usb_device_manager.cpp:308-318 | A joined list is split into its names, with or without a comma at the end. |
| FunctionNames.SameNamesSameMask | services/native/src/usb_device_manager.cpp:320-331 | Order and repetition of names do not matter. |
| FunctionNames.ListParses | services/native/src/usb_device_manager.cpp:297-332 | Any non-empty list of known names, with or without a last comma, parses to the union of their masks. |
| FunctionNames.AcceptedIff | services/native/src/usb_device_manager.cpp:297-332 | A text is accepted if and only if it is such a list. |
| FunctionNames.PrintedReadsBackIff | services/native/src/usb_device_manager.cpp:297-352 | For any table whose names cover the settable bits and one bit above them, parsing undoes printing exactly on the masks of settable bits. |
| FunctionNames.ServiceListMeans | services/native/src/usb_device_manager.cpp:297-332 | With the service's own table: a text is accepted if and only if it lists names out of "none" and the nine functions, and then sets exactly their bits. |
| FunctionNames.KeysInOrder | services/native/src/usb_device_manager.cpp:334-352 | The names are printed in the order in which the map keeps them. |
| FunctionNames.ServiceRoundTripIff | services/native/src/usb_device_manager.cpp:291-352 | With the service's own table, parsing undoes printing on a mask if and only if it is settable. |

## Left out

- ClaimService.UsbService.ClaimInterfaceExclusive: the handler is proved as one atomic step; the gap between its two lock sections is the subject of `ClaimInterleaving`, where the notifications a normal claim sends are not repeated.
- ClaimRuns.HalAgreesAlways: runs without close and detach, because what closing a device does to its claims happens inside the HAL.
- ClaimRuns.ShapeAlways: token ids are assumed to be non-zero, as the access-token service issues them.
- ClaimInterleaving.PairedAlways: the set of interfaces claimed at the HAL is not followed through interleavings, because the HAL calls happen outside the lock sections and their order is not fixed.
- ConnectionRegistry.ListenersAgreeAlways: each request is one step; registrations cut at their lock sections are the subject of `ConnectionInterleaving`.
- ConnectionInterleaving.StaleIff: a change of the open connections and its notifications are one step, so notifications that overtake each other are not captured; nor are events told to a listener while it is not listed.
- HostManager.UsbHostManager.AddDevice: devices are stored by value, so a caller that goes on changing the device it handed over is not captured, and no other thread removes the device during the call.
- HostManager.UsbHostManager.UsbDeviceAuthorize: a broadcast counts as sent when it is attempted.
- RightStore.RightManager.AddOrUpdateRightRecord: the store itself (`RightDatabase`) is a stand-in with a snapshot; that it refuses to begin a transaction while one is open is assumed of it.
- RightStore.RightManager.QueryAndGetResult: a row of a result that cannot be read is left out, whether one row fails or the walk over the result breaks off there.
- RightTable.GrantWindow: times are below 2^63, as the signed columns store them.
- Base64.Base64Decode: texts on which the signed counter would run below its least value are left out, as the language gives them no meaning; shifts and masks of bytes are written as arithmetic.
- FunctionNames.ConvertFromString: masks are sets of bit numbers; the number of the error value is a parameter, because its base is defined in a header that is not part of this model.
- ParcelService.MarshalDevice: a refused write leaves the parcel as it was.
- ClaimNotices.UnwatchedIff: making a recipient and attaching it are one with the check; a process that dies in between is a claim that is abandoned.
- Interface-level HAL calls, the security report and the JSON it is built from, the pauses between calls, and the notification of the device-management service.
- Permission checks, null-interface early returns and the mapping of callers to bundle names and users.
- The store's SQL text: where-clauses are predicates on rows. The passes for uninstalled apps and deleted users build lists in the same way as the re-installation pass and delete by the filters modelled here; sorting those lists only serves membership tests.
- `AddRightRecord` and `UpdateRightRecord` of the store helper, which only differ from the upsert in what they do not look up.
- SerialManager and its ports, UsbPortManager, the accessory state machine, dialogs, notifications, the function-switch window, iconv string conversion, logging, dump commands, the N-API, ANI and C interfaces, and the builds without pass-through: they would add easy members or are input and output.
