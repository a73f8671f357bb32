# A Dafny model of Meridio

Meridio attracts external traffic and balances it over targets in a Kubernetes cluster. This project models the parts of it
that hold state, do arithmetic or follow a protocol, and proves what they promise. `dafny verify dfyconfig.toml` checks it.

- **Port NAT, from admission to packets.** `PortNatAdmission` is the webhook's check of a conduit's destination-port NATs,
  with its three maps keyed by printed texts (`Texts`). `NatHandlers` is the handler that sets a list of NATs over an
  abstract kernel, every commit of which may fail, and `NatConvergence` says from which states, those left by failed
  commits included, the installed chains become exactly the list. `NatRules` is the four nftables rules of a chain as
  programs over header bytes, and `NatChains` is what all chains do together. `NatEndToEnd` joins them: an admitted list
  set from such a state translates every packet in an order-independent way, and replies undo the translation exactly for
  the ports they can.
- **Prefixes as intervals.** `Addresses` proves the byte loops that turn a CIDR prefix into a half-open interval, for any
  address width (`AddressLoops` has the loops). `IntervalSets` says what the start and end elements of an nftables set
  represent, `NFSets` has the updates of such a set, and `FlowSubnets` is the overlap check for a flow's subnets.
- **Identifier ranges.** `Identifiers` is the first-fit allocator of identifier ranges and `StreamService` the stream
  bookkeeping that uses it.
- **Update locks.** `UpdateLocks` is the lock that lets one conduit of an update sync group roll out its proxy at a time.
- **Flow ports.** `FlowPorts` is the port-range check, which inserts into the slice it ranges over; `GoSlices` models such
  slices with their shared backing array.
- **Bookkeeping.** `HealthChecker` (probes and subservices), `Watchers` (configuration registry, event queue, watchers),
  `Bridges` (linked interfaces), `NexthopRoutes` (multipath routes), `ProxyContexts` (IP context of a connection) and
  `StringLists` (list comparison); `Lists` says what it is to keep the order of a list.

## Assumptions

- A commit to the kernel or the API server may fail at any time; one that succeeds applies as a whole. An nftables batch is
  refused when it deletes an element that is not there; an addition is never refused. An address is in an interval set when an interval starts at or
  before it and no end element lies in between. A rule ends at its first expression that does not match.
- Texts that go through a parser (`net.ParseCIDR`, `netlink.ParseAddr`) come with the result of parsing; the two address
  families are disjoint types, so IPv4-mapped IPv6 prefixes are outside the model. A network printed by `net.IPNet` is
  identified with the network.
- VIPs with different names cover disjoint addresses. The webhook compares names only, and `MeetingIsMisbehaving` shows that
  overlapping addresses would undo the guarantee.
- Each `Reconcile` and each conduit deletion is one step, and so is each call of the stream service and each `notify` (read
  the registry, send). A watcher's channel is registered once, as the configuration manager's server does it.
- Go maps and `sync.Map` are walked in any order. Growing a slice may leave any capacity.
- In `Watchers`, whoever watches takes the messages sent: a `notify` ends. `AlwaysDrains` and `HandleEvents` depend on it.
- In `Watchers`, the seven setters, getters and notifiers of the source, which differ in the resource type only, are one
  setter, getter and notifier with the type as a parameter.

## Findings

- `addStream` looks at the wrong variable after `Generate`, so a failed reservation goes unnoticed and the stream uses
  identifiers from 0 on. `PlacedRight` says exactly when a stream is in the right place; `FailedReservationsOverlap` has two
  that are not. Ranges are disjoint in every run in which reservations are available (`RunDisjoint`), and
  `FewFit` proves that they all are when a run has at most 2^28 stream names and ranges start at 2^62 or below.
- A reservation is found by name only. A stream that comes back with another size keeps its old offset;
  `ResizedKeepsClear` says exactly when that is harmless, and `ResizedMayOverlap` has a case in which it is not.
- `checkPortsOverlapping` goes on ranging after an insertion. The result is right, but every range that goes before others
  is inserted once for each of them: the working list doubles with every range, exactly when the ranges come from high to
  low (`DescendingDoubles`).
- An update of an nftables set whose batch is not taken is recorded as done and never retried (`RefusedUpdateSticks`). The
  deletions of a batch are refused exactly when two prefixes to be dropped start or end alike (`DropAccepted`), so two
  texts of one network cannot be dropped together (`RepeatedNetworkIsStuck`, `TwoTextsStick`).
- The NAT handler has the same flaw: VIPs are recorded whatever becomes of their batch (`RefusedVipsStick`). It also
  forgets a NAT before the kernel has deleted its chain; a chain left that way stays in force through every later call
  that does not name it (`FailedDeletionSticks`), and may meet the ports of a NAT admitted later
  (`StrayChainMisbehaves`, `StrayChainExample`). `SetNatsConverges` says exactly from which states all is well.
- A NAT whose chain is created but whose VIPs are not taken is not held, and its chain is left (`FailedCreationLeavesChain`).
- Configuring the nftables table and sets only adds to what is there, so a process that starts again finds the chains and
  elements of the one before it and never removes what its own lists have not named (`StrayStays`). `RestartConverges`
  and `FirstUpdate` say exactly when the first list of the new process comes out right.
- A removal of a nexthop that does not reach the kernel is not retried either (`FailedRemovalSticks`).
- Registering a probe again looks at the newly named services only; `RegisteredKeeps` says exactly when that is right, and
  `RegisteredTwiceIsWrong` has a case in which it is not.
- `RegisterWatcher` documents that the resource to watch may be nil; with no value at all the code succeeds and registers
  nothing. The model follows the code.
- `compareSlice` ignores how often a string occurs. `ComparisonsAgreeOn` says exactly for which lists that makes no
  difference, and `ComparisonsDiffer` has two lists for which it does.

## Model

| member | source | states |
|---|---|---|
| PortNatAdmission.VipKeyInjective | api/v1/conduit_webhook.go:116-117 | A collision key determines port, VIP name (dashes included) and protocol |
| PortNatAdmission.NatNameInjective | api/nsp/v1/diff.go:37-39 | A NAT's name determines its port, target port and protocol |
| PortNatAdmission.NatNameText | api/nsp/v1/diff.go:37-39 | The name of a NAT from 80 to 8080 is 80-8080-tcp |
| PortNatAdmission.ValidatePortNat | api/v1/conduit_webhook.go:104-139 | Accepts exactly the lists in which all triples differ, no entry repeats a VIP, and entries sharing a VIP and protocol have no port number in common; the entries it reports do collide |
| PortNatAdmission.ValidateVips | api/v1/conduit_webhook.go:115-136 | The inner loop leaves the maps holding exactly the keys of the uses seen, or reports an entry that collides |
| PortNatAdmission.MetAgain | api/v1/conduit_webhook.go:118-133 | A key found in a map comes from an entry with the same VIP, protocol and a port in common |
| PortNatAdmission.NotMetYet | api/v1/conduit_webhook.go:118-135 | When none of the four lookups hits, the new use clashes with none before it |
| NatRules.EncodePort | pkg/nat/nat.go:405-409 | The two bytes are the digits of the port's low 16 bits |
| NatRules.EncodePortInjective | pkg/nat/nat.go:405-409 | Different 16-bit ports have different encodings |
| NatRules.RuleMeaning | pkg/nat/nat.go:235-310 | Running a rule's expressions over the header bytes rewrites two port bytes exactly when all its comparisons hold |
| NatRules.DestRuleMeaning | pkg/nat/nat.go:223-311 | The destination rule rewrites the destination port of matching packets to a VIP, in either family, and nothing else |
| NatRules.SrcRuleMeaning | pkg/nat/nat.go:314-402 | The source rule rewrites the source port of matching packets from a VIP, in either family, and nothing else |
| NatChains.ChainMeaning | pkg/nat/nat.go:76-83 | The four rules of a chain act as one step on each port field |
| NatChains.ChainsMeaning | pkg/nat/nat.go:194-202 | All chains together rewrite the two port fields independently and leave every other byte alone |
| NatChains.FoldResult | pkg/nat/nat.go:223-402 | Over chains that keep apart, the one chain that matches decides the result, and a field is rewritten at most once |
| NatChains.OrderIrrelevant | pkg/nat/nat.go:194-202 | Every order of the chains gives the same packet, with at most one rewrite per port field |
| NatChains.BackAgain | pkg/nat/nat.go:223-402 | Translating a port there and back restores it if and only if it is not the target of another port |
| NatChains.ReplyRestores | pkg/nat/nat.go:223-402 | A reply leaves with the port the client asked for if and only if that port is not another port's target |
| NatEndToEnd.MeetingIsMisbehaving | api/v1/conduit_webhook.go:118-133 | Two chains on a common address behave in every order and undo each other's replies if and only if their port numbers do not meet |
| NatEndToEnd.ConvertedEntry | pkg/configuration/reader/converter.go:234-245 | Each entry keeps its ports and protocol, is named after them, and gets exactly the VIPs it names that exist |
| NatEndToEnd.ResolvedDisjoint | pkg/configuration/reader/converter.go:202-216 | The VIPs an entry's names resolve to have disjoint networks |
| NatEndToEnd.AdmittedDoNotMeet | api/v1/conduit_webhook.go:104-139 | Admitted entries whose chains match a common address and protocol share no port number |
| NatEndToEnd.AdmittedApart | api/v1/conduit_webhook.go:104-139 | The chains of an admitted list keep apart |
| NatEndToEnd.CoversByName | pkg/nat/nat.go:411-422 | A chain matches exactly the packets with protocol number 6, 17 or 132 for TCP, UDP or SCTP and an address of a VIP its entry names |
| NatEndToEnd.ListTranslates | pkg/nat/nat.go:223-422 | On the bytes of a packet: towards a VIP an entry's port becomes its target port, from a VIP the target port becomes the port, and any other port stays |
| NatEndToEnd.AdmittedNatIsSound | pkg/nat/handler.go:74-93 | After an error-free SetNats of an admitted list, from any state without stray chains and with near sets, both ports of a packet are translated as the entries say, in every chain order, each at most once, and replies undo it exactly for unshadowed ports |
| NatEndToEnd.AdmittedRunIsSound | pkg/nat/handler.go:74-126 | The same after every error-free run of admitted lists, from an empty table or any state in which the first list converges |
| NatEndToEnd.StrayChainMisbehaves | pkg/nat/handler.go:110-118 | A NAT whose deletion failed stays beside a later NAT that meets it, through an error-free SetNats, and the two chains misbehave |
| NatEndToEnd.StrayChainExample | pkg/nat/handler.go:110-118 | The case of 80 to 8080 and then 8080 to 9090 on the same VIPs |
| NatHandlers.PortNatDiff | api/nsp/v1/diff.go:22-35 | The NATs of the first list whose names the second lacks, in order |
| NatHandlers.NotNamedInOrder | api/nsp/v1/diff.go:22-35 | The difference keeps the order of the first list |
| NatHandlers.DestinationPortNat.Init | pkg/nat/nat.go:55-91 | A new chain gets the NAT's rules; sets already in the kernel keep their elements |
| NatHandlers.DestinationPortNat.SetVips | pkg/nat/nat.go:93-174 | The two sets change by the difference of the texts in one batch, or not at all when the kernel refuses or lacks an element; the VIPs are recorded either way |
| NatHandlers.DestinationPortNat.Queue | pkg/nat/nat.go:105-135 | The elements queued are the intervals of the parsable texts, sorted by family |
| NatHandlers.DestinationPortNat.Delete | pkg/nat/nat.go:176-188 | A successful deletion removes the chain, a failed one changes nothing |
| NatHandlers.NewDestinationPortNat | pkg/nat/nat.go:41-53 | Chain first, then VIPs; every outcome of the two commits with the chain it leaves |
| NatHandlers.TextsReplace | pkg/nat/nat.go:99-171 | From the elements of one list of disjoint prefixes, the batch of differences is accepted and leaves exactly the elements of the new list |
| NatHandlers.TextsConverge | pkg/nat/nat.go:99-171 | From any kernel set, the batch is accepted and leaves exactly the elements of the new list if and only if the set has those of the recorded list and no others than those of both |
| NatHandlers.NatHandler.GetPortNats | pkg/nat/handler.go:120-126 | Lists exactly the NATs held, each once, in any order |
| NatHandlers.NatHandler.DeleteNat | pkg/nat/handler.go:110-118 | The NAT is dropped whatever the kernel says; its chain goes only if the kernel takes the commit, and the error tells |
| NatHandlers.NatHandler.SetNat | pkg/nat/handler.go:95-108 | For every answer of the kernel, the state of handler and kernel afterwards and whether an error is reported |
| NatHandlers.NatHandler.SetNats | pkg/nat/handler.go:74-93 | For every answer of the kernel: unlisted NATs go, listed ones are set in order, an error stops neither loop, and is reported exactly when a step had one |
| NatConvergence.SlotConverges | pkg/nat/handler.go:95-108 | For every answer of the kernel, when a NAT is held as given; without an error its chain is right if and only if what was there is near, and then there is no error if the commits are taken |
| NatConvergence.RefusedVipsStick | pkg/nat/nat.go:160-174 | VIPs the kernel did not take are recorded; asking again succeeds and changes nothing |
| NatConvergence.FailedCreationLeavesChain | pkg/nat/nat.go:41-53 | A new NAT whose VIPs are not taken is not held but leaves a chain with its rules over the old sets |
| NatConvergence.HandlerConverges | pkg/nat/handler.go:74-126 | For every answer of the kernel, the handler holds exactly the list if and only if the commits for every new NAT are taken |
| NatConvergence.SetNatsConverges | pkg/nat/handler.go:74-126 | From every state earlier calls may leave, an error-free SetNats leaves exactly the list in the handler, and exactly its chains in the kernel if and only if no chain is stray and the listed sets are near |
| NatConvergence.ConvergentSucceeds | pkg/nat/handler.go:74-118 | From such a state there is no error if and only if the commits asked for are taken |
| NatConvergence.SyncedConverges | pkg/nat/handler.go:74-126 | From a handler and kernel in agreement, a willing kernel gives no error for any list, and an error-free call leaves agreement on exactly the list |
| NatConvergence.SyncedIsConvergent | pkg/nat/handler.go:74-126 | In agreement there are no stray chains and all sets are near |
| NatConvergence.RunSynced | pkg/nat/handler.go:74-126 | An error-free run from agreement keeps it and ends with exactly the last list |
| NatConvergence.RunConverges | pkg/nat/handler.go:74-126 | An error-free run whose first list converges ends in agreement on exactly the last list |
| NatConvergence.RestartConverges | pkg/nat/handler.go:60-72 | Over the chains of an earlier process, the first list converges if and only if every chain is listed and has no element beyond the list |
| NatConvergence.RunKept | pkg/nat/handler.go:74-118 | Every run of SetNats with good lists, whatever the kernel answers, ends in a state these results are about |
| NatConvergence.StrayStays | pkg/nat/handler.go:74-93 | A chain the handler does not hold stays as it is through every run that does not name it |
| NatConvergence.FailedDeletionSticks | pkg/nat/handler.go:110-118 | A chain whose deletion failed stays as it is through every run that does not name it |
| Addresses.NextOfValue | pkg/nat/nat.go:432-437 | The carry loop adds one, wrapping to zero at the top |
| Addresses.ContainsIsInterval | pkg/nat/nat.go:424-439 | For a canonical prefix of any width, matching the mask is lying in an interval of numbers |
| Addresses.BroadcastValue | pkg/kernel/nftset.go:226-233 | Setting the host bits gives the last address of that interval |
| Addresses.EndOfValue | pkg/nat/nat.go:426-439 | The end address has value (network + 2^hostbits) mod 256^width |
| Addresses.EndOfCloses | pkg/nat/nat.go:426-439 | Unless it wraps to zero, the interval up to the end address is exactly the set of matching addresses |
| AddressLoops.Carry | pkg/nat/nat.go:432-437 | The loop over the buffer computes the successor in place |
| AddressLoops.EndAddress | pkg/nat/nat.go:426-439 | Both loops together give the end address, its value and the interval it closes |
| AddressLoops.BroadcastFromIpNet | pkg/kernel/nftset.go:226-233 | The result is the largest address of a canonical prefix |
| AddressLoops.NextIP | pkg/kernel/nftset.go:235-246 | The result is one more, modulo the width; applied to the broadcast address it is the end address |
| IntervalSets.StringArrayDiff | pkg/kernel/nftset.go:204-217 | The items of the first list missing from the second, in order |
| IntervalSets.MinusInOrder | pkg/kernel/nftset.go:204-217 | The difference keeps the order of the first list |
| IntervalSets.ElementsDisjoint | pkg/kernel/nftset.go:172-187 | Disjoint prefixes have no set element in common |
| IntervalSets.LeftElement | pkg/kernel/nftset.go:147-155 | Deleting some prefixes leaves exactly the elements of the others |
| IntervalSets.FlattenRepresents | pkg/kernel/nftset.go:172-187 | The elements of disjoint prefixes represent exactly their addresses |
| IntervalSets.ReplaceApplies | pkg/kernel/nftset.go:140-170 | The batch of differences is never refused and replaces one list's elements by the other's |
| NFSets.GetValidIPs | pkg/kernel/nftset.go:189-202 | Keeps the networks of the parsable texts of the family, and with them exactly the listed addresses |
| NFSets.NFSetIP.IpToSetElement | pkg/kernel/nftset.go:172-187 | Start and end element of a prefix |
| NFSets.NFSetIP.SetElements | pkg/kernel/nftset.go:140-170 | One batch, deletions first; the error tells whether it was taken |
| NFSets.NFSetIP.Update | pkg/kernel/nftset.go:65-75 | From agreement, an update succeeds whenever the kernel does and ends in agreement; the list is recorded in any case |
| NFSets.FirstUpdate | pkg/kernel/nftset.go:91-121 | Over leftover elements, the first update ends in agreement if and only if the new list has them all |
| NFSets.RunRepresents | pkg/kernel/nftset.go:123-170 | After every run of updates with disjoint lists, the first of which has whatever was left before, the kernel represents exactly the addresses of the last list's prefixes of the family |
| NFSets.RefusedUpdateSticks | pkg/kernel/nftset.go:123-138 | After a refused update repeating it changes nothing, and lookups are right if and only if both lists cover the same addresses |
| NFSets.DropAccepted | pkg/kernel/nftset.go:147-155 | For any lists, a kernel with the recorded elements accepts a batch's deletions if and only if no two prefixes to be dropped share an element |
| NFSets.SharedElement | pkg/kernel/nftset.go:172-187 | Two prefixes share an element exactly when they start alike or end alike |
| NFSets.RepeatedNetworkIsStuck | pkg/kernel/nftset.go:147-155 | For equal or disjoint networks, the batch is taken if and only if every network recorded twice is kept |
| NFSets.TwoTextsStick | pkg/kernel/nftset.go:123-170 | A run that lists one network in two texts and then none leaves its elements in the kernel |
| NFSets.DefaultNetworkSticks | pkg/kernel/nftset.go:123-170 | The case of the texts ::/0 and 0::/0 |
| FlowSubnets.SharedAddressMeansNested | api/v1/types.go:108-122 | Two prefixes share an address only if one contains the other |
| FlowSubnets.OverlapIsSharedAddress | api/v1/types.go:108-122 | subnetsOverlap holds exactly when an address lies in both |
| FlowSubnets.ValidIsCanonical | api/v1/types.go:90-106 | A text is a valid prefix exactly when it parses and has no host bit set |
| FlowSubnets.ValidateSubnets | api/v1/flow_webhook.go:193-209 | Accepts exactly the lists of canonical prefixes with disjoint address sets, and reports a first offender |
| Identifiers.IdentifierOffsetGenerator.Get | cmd/stateless-lb/identifier.go:84-91 | Finds a reservation exactly when one has the name |
| Identifiers.IdentifierOffsetGenerator.FindOverlap | cmd/stateless-lb/identifier.go:56-65 | Walking the map in any order finds a range in the way exactly when there is one, without overflow |
| Identifiers.IdentifierOffsetGenerator.Generate | cmd/stateless-lb/identifier.go:43-70 | Terminates with the least offset whose range is free, fails exactly when there is none below the guard, and always fails for size 0 |
| Identifiers.IdentifierOffsetGenerator.Release | cmd/stateless-lb/identifier.go:73-82 | Frees the range of that name and no other |
| Identifiers.FirstFitUnique | cmd/stateless-lb/identifier.go:51-67 | The answer does not depend on the order of the walk |
| Identifiers.ScanIsFirstFit | cmd/stateless-lb/identifier.go:51-67 | Skipping from range to range finds what trying offset by offset finds |
| Identifiers.ResizedKeepsClear | cmd/stateless-lb/identifier.go:46-49 | A stream that comes back with another size keeps clear of the others if and only if it ends before the next reservation |
| Identifiers.ResizedMayOverlap | cmd/stateless-lb/identifier.go:46-49 | Two reservations of which the first grows into the second |
| Identifiers.FailsOnlyWhenFull | cmd/stateless-lb/identifier.go:51-67 | If no range is free, the space from start to the guard is at most one stretch of (its size + the new size - 1) per reservation |
| StreamService.FewFit | cmd/stateless-lb/main.go:761-764 | With at most 2^28 names of fixed sizes, a reservation cannot fail, whatever the gaps |
| StreamService.PlacedRight | cmd/stateless-lb/main.go:761-764 | A new stream is at or above the start and clear of all other reservations if and only if a range was available and, reserved under its name with another size, it ends before the next reservation |
| StreamService.FailedReservationsOverlap | cmd/stateless-lb/main.go:761-764 | A run in which two reservations fail and both streams get identifiers from 0 on |
| StreamService.RunDisjoint | cmd/stateless-lb/main.go:719-833 | In every state of every run of updates and evictions with sizes fixed per name, live ranges are disjoint and at or above the start, if every reservation was available when asked for or there are at most 2^28 names |
| StreamService.GoodIsDisjoint | cmd/stateless-lb/main.go:754-797 | Streams that use their reservations have disjoint identifier ranges at or above the start |
| StreamService.UpdatedNames | cmd/stateless-lb/main.go:719-752 | After an update only streams of the conduit are live, all of them if no addition failed, and those already there keep their ranges |
| StreamService.AddedOk | cmd/stateless-lb/main.go:719-752 | An addition fails only when a stream cannot be created |
| StreamService.EqualsIsLineage | api/nsp/v1/utils.go:30-39 | A stream belongs to the conduit exactly when names of conduits and trenches agree or are empty, and both trenches are there |
| StreamService.AddReserves | cmd/stateless-lb/main.go:761-797 | An addition that finds a range reserves it even if the stream is not created, and touches no other name |
| StreamService.UpdateFrees | cmd/stateless-lb/main.go:799-812 | An update frees the ranges of the streams it stops and of no others |
| StreamService.RunOnlyLive | cmd/stateless-lb/main.go:719-812 | In every run without evictions and failures the streams with reservations are exactly the live ones |
| StreamService.ComesBack | cmd/stateless-lb/main.go:824-833 | An eviction leaves no stream and all reservations, and a stream that comes back with its size gets its old range |
| StreamService.SimpleNetworkService.AddStream | cmd/stateless-lb/main.go:754-797 | A new stream uses the range reserved for it, or starts at 0 when none was available; the reservation is made even if the stream is not |
| StreamService.SimpleNetworkService.DeleteStream | cmd/stateless-lb/main.go:799-812 | The stream and its reservation go, even when stopping it fails |
| StreamService.SimpleNetworkService.EvictStreams | cmd/stateless-lb/main.go:824-833 | No stream is left, all reservations are |
| StreamService.SimpleNetworkService.UpdateStreams | cmd/stateless-lb/main.go:719-752 | The two loops follow the update on values, an error is reported exactly when a step had one, and without one exactly the conduit's streams are live |
| StreamService.SimpleNetworkService.Serve | cmd/stateless-lb/main.go:703-716 | Every sequence of calls follows the run on values |
| UpdateLocks.ReachableOwnersAreMembers | pkg/controllers/conduit/conduit_controller.go:230-295 | In every reachable state a lock's owner is recorded as a member of the group |
| UpdateLocks.NoLockLeftBehind | pkg/controllers/conduit/conduit_controller.go:248-295 | A conduit holds at most one lock, and none of an old group after a move or deletion |
| UpdateLocks.HolderStays | pkg/controllers/conduit/conduit_controller.go:193-246 | A held lock stays with its owner, and nobody else pushes, through every step that does not end the owner's turn |
| UpdateLocks.OneUpdateAtATime | pkg/controllers/conduit/conduit_controller.go:124-163 | In every run, between pushes of two conduits of a group the first is seen ready, leaves the group or is deleted |
| UpdateLocks.LockedMeansTurn | pkg/controllers/conduit/conduit_controller.go:124-163 | In every reachable state a lock belongs to a conduit that has pushed and is neither seen ready, nor gone from the group, nor deleted since |
| UpdateLocks.RefusedExactlyInTurn | pkg/controllers/conduit/conduit_controller.go:124-163 | In every run a prepared update is refused if and only if another conduit of the group is in its turn |
| UpdateLocks.GroupsAreLastSeen | pkg/controllers/conduit/conduit_controller.go:250-295 | The group recorded for a conduit is the one it was last seen in |
| UpdateLocks.ConduitReconciler.AcquireGroupLock | pkg/controllers/conduit/conduit_controller.go:194-212 | Succeeds unless another conduit owns the lock; only a lock just created gets an owner |
| UpdateLocks.ConduitReconciler.HoldsLock | pkg/controllers/conduit/conduit_controller.go:215-227 | Tells whether the conduit owns the group's lock |
| UpdateLocks.ConduitReconciler.ReleaseGroupLock | pkg/controllers/conduit/conduit_controller.go:230-246 | Removes the lock exactly when the conduit owns it |
| UpdateLocks.ConduitReconciler.ManageUpdateSyncGroupChange | pkg/controllers/conduit/conduit_controller.go:250-282 | On a change the old lock is released and the new group recorded |
| UpdateLocks.ConduitReconciler.CleanupLock | pkg/controllers/conduit/conduit_controller.go:285-295 | A deleted conduit is forgotten with its lock |
| UpdateLocks.ConduitReconciler.Reconcile | pkg/controllers/conduit/conduit_controller.go:75-163 | The controller follows the step function and pushes exactly when it says so |
| GoSlices.AppendTail | api/v1/flow_webhook.go:187-187 | Appending a tail of a slice to its head shifts in place while the capacity suffices and leaves the old buffer alone otherwise |
| FlowPorts.InsertPortList | api/v1/flow_webhook.go:183-191 | The range is inserted at the index, in place or in a new buffer |
| FlowPorts.CheckPortsOverlapping | api/v1/flow_webhook.go:164-181 | Rejects exactly the candidates that overlap; otherwise the candidate is inserted once per range it goes before |
| FlowPorts.WorkingFacts | api/v1/flow_webhook.go:139-153 | The working list stays ordered, holds exactly the accepted ranges and has at most 2^(k-1) entries after k ranges |
| FlowPorts.DescendingDoubles | api/v1/flow_webhook.go:164-181 | That bound is reached if and only if from the third on every range lies below all earlier ones |
| FlowPorts.FormatReadsDenotation | api/v1/types.go:129-161 | A text is read as a range exactly when it is "any", a port number, or two around one dash in order |
| FlowPorts.ValidatePorts | api/v1/flow_webhook.go:139-153 | Accepts exactly the lists whose texts denote pairwise disjoint ranges, and reports a first offender |
| HealthChecker.StatusSetKeeps | pkg/health/checker.go:168-211 | A status change keeps the index, keeps every right aggregate, and makes the aggregates of the service's probes right |
| HealthChecker.StatusSetSets | pkg/health/checker.go:168-211 | A status change sets the service's status, unless it is a probe with subservices, and of the others only probes of the service change |
| HealthChecker.RegisteredKeeps | pkg/health/checker.go:64-107 | Registering keeps index and other probes; the probe is right if and only if a named service is not serving or all earlier subservices are |
| HealthChecker.RegisteredTwiceIsWrong | pkg/health/checker.go:64-107 | Two registrations after which a probe is SERVING and a subservice is not |
| HealthChecker.RegisteredServices | pkg/health/checker.go:84-105 | Services named for the first time are NOT_SERVING, others keep their status |
| HealthChecker.RunAggregates | pkg/health/checker.go:64-211 | In every run with each probe registered once, the indexes are inverse and a probe is SERVING if all its subservices are and NOT_SERVING otherwise |
| HealthChecker.Checker.RegisterServices | pkg/health/checker.go:64-107 | The loop registers the services and sets the probe to the aggregate of this call's services |
| HealthChecker.Checker.SetServingStatus | pkg/health/checker.go:168-211 | Probes with subservices are not set directly; another service updates its probes one after another in some order, in every state |
| HealthChecker.WalkIsStatusSet | pkg/health/checker.go:183-208 | With the indexes in place every order gives the same statuses |
| Watchers.ConfigurationRegistry.SetResources | pkg/configuration/registry/registry.go:76-81 | The resources are replaced, then an event of their kind is sent if there is a channel |
| Watchers.ConfigurationRegistry.GetResources | pkg/configuration/registry/registry.go:111-123 | The loop keeps exactly the matching resources, in order, or all without a filter |
| Watchers.EqualsIsLineage | api/nsp/v1/utils.go:19-97 | Two resources are equal exactly when, at every level up to the trench, both have a resource and the names agree or one is empty; two missing streams agree |
| Watchers.GetterKeeps | pkg/configuration/registry/registry.go:111-260 | A getter returns, in order and as often as they occur, exactly the resources that agree with the filter at every level, trenches by name; without a filter all |
| Watchers.StepKeepsInv | pkg/configuration/manager/watcher.go:96-241 | Every step leaves each watcher up to date or owed a notification |
| Watchers.WatchersCatchUp | pkg/configuration/manager/watcher.go:96-241 | In every state of every run a watcher has seen the present configuration or is owed a notification; at quiescence all have seen it |
| Watchers.DrainingEnds | pkg/configuration/manager/watcher.go:96-101 | Every step of the notifier reduces the work under way |
| Watchers.AlwaysDrains | pkg/configuration/manager/watcher.go:96-199 | From every reachable state finitely many such steps bring every watcher up to date |
| Watchers.WatcherNotifier.RegisterWatcher | pkg/configuration/manager/watcher.go:111-177 | A watcher is stored and notified exactly when channel and resource are of one kind, as a Store and a FirstNotify of the protocol; without a resource the call succeeds and does nothing |
| Watchers.WatcherNotifier.UnregisterWatcher | pkg/configuration/manager/watcher.go:180-187 | The channel is removed, others stay |
| Watchers.WatcherNotifier.NotifyWatchers | pkg/configuration/manager/watcher.go:189-199 | All watchers of the kind get what their getter returns, and no others get anything: a walk of Visit steps of the protocol |
| Watchers.WatcherNotifier.HandleEvent | pkg/configuration/manager/watcher.go:96-101 | One turn of the loop is a Receive, the visits and an EndRound of the protocol |
| Watchers.WatcherNotifier.HandleEvents | pkg/configuration/manager/watcher.go:96-101 | When no event is left, every watcher has been sent the present configuration |
| Watchers.SetterSteps | pkg/configuration/registry/registry.go:76-81 | A setter is an Assign and, when the channel has room, a Send of the protocol |
| Bridges.Bridge.RemoveFromLinkedInterfaces | pkg/kernel/bridge.go:82-88 | Deleting while ranging never slices out of bounds and removes exactly the interface, whatever the indexes |
| Bridges.Bridge.FindLinkedInterfaceByIndex | pkg/kernel/bridge.go:101-111 | The first interface with the index, none for a negative one |
| Bridges.FindsFirst | pkg/kernel/bridge.go:101-111 | The interface found is the first with the index |
| Bridges.Bridge.LinkInterface | pkg/kernel/bridge.go:120-150 | An interface found under the index makes way if it has the same type; the list changes whatever the kernel says, and the error tells what it said |
| Bridges.Bridge.UnLinkInterface | pkg/kernel/bridge.go:152-170 | Exactly the interface is removed, whatever the kernel says, and the error tells what it said |
| Bridges.LinkKeepsUnique | pkg/kernel/bridge.go:120-134 | Linking keeps indexes unique if and only if whatever has the index has the type too and the index is not negative |
| Bridges.LinkedIsListed | pkg/kernel/bridge.go:120-135 | A linked interface is listed; of the others only the first with its index goes, if it has its type |
| Bridges.RunDistinct | pkg/kernel/bridge.go:78-170 | In every run no interface is listed twice |
| Bridges.RunUnique | pkg/kernel/bridge.go:78-170 | In every run with non-negative indexes of fixed type, at most one linked interface has an index |
| NexthopRoutes.RemoveAddrFromList | pkg/kernel/route.go:340-349 | The first match gives its place to the last nexthop, in the list's own buffer |
| NexthopRoutes.NexthopRoute.AddNexthop | pkg/kernel/route.go:206-233 | A new nexthop enters list and route together; any failure leaves both as they were |
| NexthopRoutes.NexthopRoute.RemoveNexthop | pkg/kernel/route.go:237-263 | The nexthop leaves the list; the route is replaced, or deleted with the last nexthop; an error is reported exactly when the kernel refused a change that was due |
| NexthopRoutes.RemovedUndoesAppend | pkg/kernel/route.go:225-230 | Undoing an addition restores the list exactly |
| NexthopRoutes.AddAdds | pkg/kernel/route.go:206-233 | An accepted addition puts the nexthop into its family's list and nothing else |
| NexthopRoutes.RunHolds | pkg/kernel/route.go:206-263 | In every run a list holds exactly the nexthops added with success and not removed since |
| NexthopRoutes.RemoveKeepsConsistent | pkg/kernel/route.go:237-263 | A removal takes out exactly the nexthop and keeps the route equal to the list |
| NexthopRoutes.RunConsistent | pkg/kernel/route.go:206-263 | In every run whose removals reach the kernel, lists have no duplicates, routes have their gateways, and a route exists exactly for a non-empty list |
| NexthopRoutes.FailedRemovalSticks | pkg/kernel/route.go:246-259 | A removal the kernel did not take is not retried, and shows if and only if no other nexthop has the gateway |
| ProxyContexts.RemoveOldIPs | pkg/proxy/proxy.go:386-412 | Keeps, in order, the parsable addresses outside the gateways' subnets |
| ProxyContexts.ContainsAll | pkg/proxy/proxy.go:415-424 | Tells whether all items of the second list occur in the first |
| ProxyContexts.RequestContext.SetNSEIpContext | pkg/proxy/proxy.go:304-348 | First request, unchanged context and update follow the three cases of the source |
| ProxyContexts.RequestContext.UpdatePolicyRoutes | pkg/proxy/proxy.go:350-383 | Every route of a parsable policy points to the last gateway of its family |
| ProxyContexts.RedirectedToOwnFamily | pkg/proxy/proxy.go:350-383 | Every route of a parsable policy gets the address of the last gateway of its own family, and keeps its destination |
| ProxyContexts.UpdatedElsewhere | pkg/proxy/proxy.go:304-332 | A first request gets exactly the allocation, and a context that has it all is left alone |
| ProxyContexts.UpdatedSettles | pkg/proxy/proxy.go:304-348 | All allocated addresses and gateways are present afterwards, and setting the context again changes nothing |
| ProxyContexts.UpdateKeepsForeign | pkg/proxy/proxy.go:333-347 | On an update the old addresses outside the old gateways' subnets stay first and in order, the others go, and gateways and policy routes follow the bridge |
| StringLists.EqualStringList | pkg/utils/list.go:21-41 | Holds exactly for permutations |
| StringLists.CompareSlice | api/nsp/v1/utils.go:145-172 | Holds exactly when lengths and sets of strings agree |
| StringLists.ComparisonsAgree | api/nsp/v1/utils.go:145-172 | When one list has no duplicates both comparisons agree |
| StringLists.ComparisonsAgreeOn | api/nsp/v1/utils.go:145-172 | compareSlice tells a list from all that are no permutations of it if and only if it has no duplicates or no two different strings |
| StringLists.ComparisonsDiffer | api/nsp/v1/utils.go:145-172 | Lists that compareSlice calls equal and that are no permutations |

## Left out

- Generated gRPC and protobuf code, process wiring, TLS, NSM clients: plumbing over libraries.
- Kubernetes objects and deployment models in `pkg/controllers`, metrics, logging: templating with easy claims.
- IPAM: allocation is not part of this model.
- Time: timers, retries and the delayed release of addresses in `pkg/proxy/proxy.go` (`ipReleaser`) are not modelled.
- `validateVips` and `validateByteMatches` of the flow webhook, `SetVIPs` of the proxy: set differences and formats that would add easy members only.
- Checksums, counters and connection tracking beyond the notrack mark: the rules' effect on ports is what is modelled.
- Interleavings inside a `Reconcile`, a stream service call or a `notify`: each is one step; at a finer grain the update lock does not exclude conduits, because its mutex belongs to one lock object while the map is keyed by group.
- PortNatAdmission.ValidatePortNat: protocols are the three the resource definition admits, because the schema rejects others before the webhook.
- NatConvergence.SetNatsConverges: for lists with different names, which admission guarantees; from agreement `SyncedConverges` covers all lists.
- NFSets.DropAccepted: says nothing about additions, because the kernel's own checks for overlapping intervals are not part of this model.
