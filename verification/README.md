# A verified model of the DataWerx mesh agent

The agent separates planners, which compute rules, maps and addresses, from appliers, which change kernel and API state
one call at a time. This project models the hard part of both in Dafny and proves what they promise: what the planned
rules mean for every packet, and what the appliers keep at every step when any call may fail.

Verify the project with `dafny verify dfyconfig.toml`.

## What is modelled

- **Mesh firewall.** `FirewallPlan` compiles policies into one first-match chain. `FirewallInterpret` and `Reach` read it
  back. `FirewallManager` replaces it behind a DROP guard on a modelled iptables table (`Iptables`).
- **Service NAT.** `NatPlan` expands services into chains, `NatOrder` says when their order matters, `NatManager` rebuilds
  them under iptables' own rules, `NatBalance` gives the walk its probabilities, and `ServiceNat` ties it to exports and
  imports.
- **Overlap remap.** `Remap` and `RemapText` hold the 32-bit block arithmetic and one peer's plan, `RemapAgreement` what
  two clusters agree on, `RemapController` the table for all peers, `Netmap` the rules and their effect on addresses,
  `RemapDelivery` the path of a packet, `LiveMap` and `Ebpf` the kernel maps that must do the same, `RemapBackends` whether
  they do.
- **Allocators.** `Probing` is the shared theory of sorted hash probing, `Allocate` the ClusterSetIPs, `EdgeAllocate` the
  device addresses with pins.
- **Reconcilers with failures.** `Syncer`, `Routed`, `MeshPeer`, `Probe` and `Retry`.
- **Imports.** `Import` merges the exports of one service, oldest first; `ImportOrder` says when their order matters.

`Order`, `Reorder`, `Cidr`, `Text` and `Packets` are the common ground: sorting and collecting, ties, IPv4 prefixes as
aligned blocks (section 3.1 of RFC 4632), Go's string helpers, and rule matching.

Objects whose fields the source updates are classes. A call that may fail chooses its outcome with `*`, so every contract
covers failure at every call. Kernel objects keep a ghost history of every state they passed through. Library functions
(`net.ParseCIDR`, FNV, SHA, the token loader, HTTP replies) are parameters.

## Where the code does less than it says

Each of these has a lemma that says exactly when the promise holds, or one with an input that breaks it, and mostly both.
One more is a matter of words: the documentation of `Port` calls an empty protocol agnostic, the code reads it as tcp, and the model
follows the code.

- The guard chain is said to hold exactly a DROP. `ensureGuardChain` appends one if it is missing and keeps what else is
  there, so a stray ACCEPT or RETURN opens the rebuild window (`DriftedGuardFailsOpen`, `GuardEnsuredExactly`,
  `WindowFailsClosedExactly`).
- A sync lifts one guard per hook. Where drift left two, the rest keeps dropping and the new rules are not in force
  (`SyncRestoresExactly`).
- A protocol called `conntrack` or `--dport` is misread by `Interpret` (`ConntrackIsMisread`, `RecoveredExactly`,
  `InterpretInvertsCompile`).
- "Blocked" compares range texts. A peer inside an allowed supernet is reported as blocked although the chain accepts it
  (`SupernetReportedBlocked`, `BlockedMayBeAccepted`, `BlockedIsTrueExactly`, `ShutOutExactly`).
- `reconcileApply` remaps dangerous ranges that the NETMAP reconciler drops, so they are routed but never presented
  (`AgreementExactly`, `DangerousRangeIsRoutedOnly`).
- The peer side hashes the CIDR text as written, the owner the canonical text (`RawTextExactly`).
- Claims compare texts, so ranges of unequal length may nest unnoticed, and then some host is not restored
  (`NestedEntriesPass`, `AllHostsRestoredExactly`). Claims name clusters, so two peers of one cluster share routes
  unnoticed (`SameClusterPasses`).
- Inbound NETMAP undoes outbound NETMAP unless an earlier rule's virtual range holds the presented address, or an
  untranslated address lies in a virtual range (`UndoneExactly`, `InboundUndoesOutbound`, `Delivery`,
  `UnusedVirtualMoves`).
- The kernel maps are said to replace the NETMAP rules. Where virtual ranges nest, longest prefix and first match differ on
  incoming addresses (`NestedSiteParts`, `NestedBackendsExactly`, `BuiltBackendsAgreeExactly`).
- One IPv6 range that overlaps an IPv6 range of ours refuses the remap table for every peer (`Overlap6Refuses`).
- `reconcileMap` never settles on a key listed with two values (`DuplicateAlternates`, `AlwaysConvergesExactly`).
- A skipped revision may hide a missing peer: a cluster that returns while its MeshPeer is still being finalized is
  recorded on the dying object (`ReturnBeforeFinalized`, `SkipSoundExactly`).
- The rollback of `ConfigurePeer` also takes down routes that worked before the call (`RollbackTakesDownWorking`,
  `RollbackRestoresExactly`).
- Finalization removes the key in the spec, not the key programmed (`EditedThenDeleted`, `FinalizationExactly`,
  `TrackedThroughoutExactly`).
- A token refresh is said to retry at once. After an earlier retry the loop sleeps the last backoff step again
  (`RefreshAfterRetrySleeps`, `RefreshImmediateOnFirst`).
- `ImportPlan.Clusters` is said to be sorted; it is in oldest-first order (`ClustersOutOfNameOrder`,
  `ClustersInNameOrderExactly`).
- The import plan is said not to depend on the order of the exports. The sort does not distinguish exports of one time and
  cluster (`TiedTypesHaveTwoPlans`, `OnePlanExactly`).
- `BuildRuleset` is said to be deterministic. The sort does not distinguish services that share namespace and name, so it is
  deterministic exactly when those of them that produce rules produce the same ones (`OrderDeterminedExactly`,
  `SameNameOrderMatters`).

## Model

| member | source | states |
|---|---|---|
| `Cidr.OverlapExact` | pkg/topology/remap.go:150-152 | the base-address test holds exactly when the two prefixes share an address |
| `Cidr.SameLengthDisjoint` | pkg/topology/remap.go:150-152 | prefixes of one length overlap only if they are equal |
| `Text.NormalizeIdempotent` | pkg/meshfw/plan.go:284-290 | normalizing a protocol name twice is normalizing it once |
| `Text.NormalizeExactly` | pkg/meshfw/plan.go:284-290 | a protocol text normalizes to a name if and only if, without the white space around it, it is that name in some mix of upper and lower case, or is blank and the name is tcp |
| `Text.DigitsAreTheNumeral` | pkg/meshfw/plan.go:292-292 | a printed number is its decimal numeral, without leading zeros |
| `FirewallPlan.CompiledMeaning` | pkg/meshfw/plan.go:97-215 | for every packet, first-match evaluation of the compiled chain is the policy verdict: established accepted, allowed accepted, selected and not allowed dropped, the rest returned; a port of a policy names a protocol as the row on normalizing says |
| `FirewallPlan.CompiledVerdict` | pkg/meshfw/plan.go:183-215 | the same for arbitrary accept and protected sets: accepts precede drops whatever the sort order |
| `FirewallPlan.RulesetOrderIndependent` | pkg/meshfw/plan.go:183-215 | rules and skips depend only on which policies there are, not on order or repetition |
| `FirewallPlan.AcceptArgsMeaning` | pkg/meshfw/plan.go:217-232 | the printed ACCEPT arguments match exactly the packets of the key |
| `FirewallPlan.DropArgsMeaning` | pkg/meshfw/plan.go:234-239 | the printed DROP arguments match exactly the packets to the destination |
| `FirewallPlan.LessAcceptTotal` | pkg/meshfw/plan.go:254-265 | the accept order is a strict total order, so its sort is unique |
| `FirewallPlan.LessDestTotal` | pkg/meshfw/plan.go:269-277 | the destination order is a strict total order |
| `FirewallPlan.AcceptOrder` | pkg/meshfw/plan.go:254-265 | accepts come by destination, then source, protocol and port |
| `FirewallPlan.DropOrder` | pkg/meshfw/plan.go:267-277 | the drops come by destination, the one for every destination last |
| `Order.StringLessExactly` | pkg/meshfw/plan.go:254-265 | the order of texts is that of Go: a proper prefix first, else the smaller character at the first difference |
| `FirewallPlan.FwBuilder.KeepIPv4` | pkg/meshfw/plan.go:123-136 | keeps exactly the non-empty IPv4 ranges and records the others as skipped |
| `FirewallPlan.FwBuilder.AddAccept` | pkg/meshfw/plan.go:171-179 | adds one key per port, or one for all ports |
| `FirewallPlan.FwBuilder.AddIngress` | pkg/meshfw/plan.go:160-167 | adds the cross product of kept sources, destinations and ports |
| `FirewallPlan.FwBuilder.AddPolicy` | pkg/meshfw/plan.go:140-156 | adds the policy's keys, destinations and skips; a policy with no usable destination adds none |
| `FirewallPlan.FwBuilder.Emit` | pkg/meshfw/plan.go:183-215 | emits conntrack, sorted accepts and sorted drops from whatever order the maps are visited in |
| `FirewallPlan.Dedupe` | pkg/meshfw/plan.go:294-305 | a sorted list without its repeats, nothing lost |
| `FirewallPlan.ResolveSources` | pkg/meshfw/plan.go:243-252 | exactly the selectors' CIDRs and those of the clusters they name |
| `FirewallPlan.BuildFirewall` | pkg/meshfw/plan.go:97-107 | returns exactly the compiled chain and the sorted skips |
| `FirewallPlan.SkippedExactly` | pkg/meshfw/plan.go:121-167 | reported as skipped are exactly the destination texts that are no IPv4 range and, for policies that program something, the source texts that are none, tagged with where they stood |
| `FirewallInterpret.Interpret` | pkg/meshfw/interpret.go:29-58 | the accesses and destinations read from the rules, first occurrences in order |
| `FirewallInterpret.ArgValueExactly` | pkg/meshfw/interpret.go:69-76 | in any rule a flag has the word after its first occurrence as its value, or none |
| `FirewallInterpret.RecoveredExactly` | pkg/meshfw/interpret.go:60-76 | a printed accept key is read back unchanged if and only if its protocol name is ordinary |
| `FirewallInterpret.ConntrackIsMisread` | pkg/meshfw/interpret.go:29-58 | a rule for a protocol called conntrack is skipped as if it were the conntrack rule |
| `FirewallInterpret.InterpretInvertsCompile` | pkg/meshfw/interpret.go:29-76 | interpreting a compiled chain gives back its sets in order if and only if every protocol name is ordinary |
| `FirewallInterpret.PolicyKeysAreBuilderKeys` | pkg/meshfw/plan.go:97-179 | what policies compile to is in the scope of the inversion |
| `Reach.ReachFor` | pkg/reach/reach.go:123-164 | one peer's row: for each protected destination whether an accept names the peer |
| `Reach.Plan` | pkg/reach/reach.go:109-120 | one row per peer, sorted by cluster, over the sets read back from the real ruleset |
| `Reach.AllowedExactly` | pkg/reach/reach.go:166-180 | a peer is reported as allowed to a destination if and only if an accept key names that destination, or none, and one of the peer's ranges or everywhere |
| `Reach.AllowedIsAccepted` | pkg/reach/reach.go:123-180 | an allowed destination has a source range, protocol and port for which the chain accepts every packet, and such a packet exists; a key from anywhere admits every range of the peer |
| `Reach.BlockedIsTrueExactly` | pkg/reach/reach.go:123-180 | a peer is shut out of a protected destination if and only if no accept key touches any of its ranges there; such a peer is always reported as not allowed |
| `Reach.OpenIsNeverDropped` | pkg/reach/reach.go:123-164 | when nothing is protected, the chain drops nothing |
| `Reach.ShutOutExactly` | pkg/reach/reach.go:170-180 | a protected destination is closed to a range if and only if no accept key overlaps both |
| `Reach.SupernetReportedBlocked` | pkg/reach/reach.go:170-180 | a range inside an allowed supernet is reported blocked although its packets are accepted |
| `Reach.BlockedMayBeAccepted` | pkg/reach/reach.go:170-180 | such a peer exists |
| `FirewallManager.JumpMeaning` | pkg/meshfw/manager.go:106-120 | our jumps take exactly the packets that arrive on the mesh device, each to the chain it names |
| `FirewallManager.OtherDevicesUntouched` | pkg/meshfw/manager.go:106-120 | packets of every other device pass our jumps untouched |
| `FirewallManager.ChainNames` | pkg/meshfw/manager.go:60-73 | a completed infrastructure holds both chains under their published names |
| `FirewallManager.EnforcingFailsClosed` | pkg/meshfw/manager.go:122-156 | while the chain is complete or both hooks are guarded, no packet from the mesh device passes that the ruleset drops |
| `FirewallManager.Manager.EnsureChain` | pkg/meshfw/manager.go:93-104 | creates the chain if it is missing and touches nothing else |
| `FirewallManager.Manager.EnsureGuardChain` | pkg/meshfw/manager.go:77-91 | on any chain found, success leaves it as found with a blanket DROP appended where there was none |
| `FirewallManager.Manager.EnsureHook` | pkg/meshfw/manager.go:108-120 | adds the jump on top of any hook that lacks it; no other chain changes; what the jump does to a packet is `JumpMeaning` |
| `FirewallManager.Manager.EnsureInfra` | pkg/meshfw/manager.go:60-73 | completes the infrastructure of any table; changes nothing where it is complete; a failure half-way does not change where a later call ends |
| `FirewallManager.Manager.EngageGuard` | pkg/meshfw/manager.go:161-175 | after success both hooks divert; every table on the way has some of the missing guards added, in order, and nothing else |
| `FirewallManager.Manager.DisengageGuard` | pkg/meshfw/manager.go:179-193 | after success one guard is lifted from each hook; every table on the way has some of them lifted, in order, and nothing else |
| `FirewallManager.Manager.SyncFirewall` | pkg/meshfw/manager.go:132-156 | from any table success leaves exactly the new ruleset, with one guard lifted per hook, having passed through the rebuild window; while a ruleset is enforced every intermediate table, with any call failing, enforces it or the new one and lets a packet past only if one of the two does |
| `FirewallManager.NewManager` | pkg/meshfw/manager.go:45-55 | a started manager has the infrastructure of any table completed, and enforces from its first moment where the ensured guard denies |
| `FirewallManager.Run` | pkg/meshfw/manager.go:132-193 | over whole runs of syncs with failures: every table enforces the last completely installed ruleset or the one being installed at that step, and a later success is as good as a fault-free run |
| `FirewallManager.FreshIsStartable` | pkg/meshfw/manager.go:45-91 | a table without guards whose guard chain is absent, empty or a DROP is one to start from |
| `FirewallManager.SyncedTwice` | pkg/meshfw/manager.go:132-156 | with at most one guard per hook, only the last synced ruleset matters |
| `FirewallManager.CompiledIsProgrammable` | pkg/meshfw/plan.go:183-239 | what the planner emits can be appended: it stays in its chain and jumps to no user chain |
| `FirewallManager.GuardEnsuredExactly` | pkg/meshfw/manager.go:77-91 | the ensured guard drops a packet if and only if what was there did not accept or return it first; it is a lone DROP if and only if it started absent, empty or as one |
| `FirewallPlan.PlannedIsModelled` | pkg/meshfw/plan.go:183-239 | every rule the planner prints uses only options and targets that are given a meaning |
| `FirewallManager.WindowFailsClosedExactly` | pkg/meshfw/manager.go:132-156 | whatever the hooks hold, the rebuild window (guard engaged, chain flushed) fails closed for every ruleset if and only if the ensured guard drops every packet of the mesh device |
| `FirewallManager.DriftedGuardFailsOpen` | pkg/meshfw/manager.go:77-91 | with a stray ACCEPT or RETURN in the guard chain that table lets packets past which the ruleset drops |
| `FirewallManager.SyncRestoresExactly` | pkg/meshfw/manager.go:179-193 | a completed sync puts the new rules in force for the packets of the mesh device, whatever the rules are, if and only if no hook held two guards |
| `NatPlan.BuildRuleset` | pkg/nat/plan.go:72-96 | the ruleset is the expansion of the sorted services |
| `NatPlan.AppendPortRules` | pkg/nat/plan.go:101-141 | appends the VIP jump, the probability splits and one DNAT chain per backend, and registers every chain |
| `NatPlan.UniqueSortedStrings` | pkg/nat/plan.go:180-188 | the distinct non-blank strings in order |
| `NatPlan.SortPorts` | pkg/nat/plan.go:200-219 | the distinct normalized ports in order |
| `NatPlan.RulesetOrderIndependent` | pkg/nat/plan.go:72-96 | with distinct services every input order gives the same ruleset |
| `NatPlan.SameNameOrderMatters` | pkg/nat/plan.go:76-84 | two services of one name and different VIPs may be sorted either way, and the rulesets differ |
| `NatOrder.OrderDeterminedExactly` | pkg/nat/plan.go:72-96 | all orders the sort may leave give one ruleset if and only if services of one namespace and name that produce rules produce the same ones |
| `NatOrder.RulesDecode` | pkg/nat/plan.go:101-141 | rules determine the groups of one service name they were printed from |
| `NatPlan.RulesClosed` | pkg/nat/plan.go:72-141 | rules use only created chains and the root, and jump only to created chains |
| `NatManager.Manager.EnsureInfra` | pkg/nat/manager.go:90-100 | the root chain and both hooks exist, all foreign rules unchanged |
| `NatManager.Manager.DeleteManagedChains` | pkg/nat/manager.go:182-204 | flushes before deleting, so every deleted chain is empty and unreferenced; no managed chain remains |
| `NatManager.Manager.ApplyRuleset` | pkg/nat/manager.go:207-219 | every created chain is absent and every jump target present; the table is exactly the ruleset |
| `NatManager.Manager.SyncClusterSet` | pkg/nat/manager.go:158-178 | from any drifted or half-rebuilt table every call meets iptables' precondition; success leaves exactly the planned chains and an unchanged rest; failure leaves a table from which the same holds |
| `NatManager.RebuiltIsHooked` | pkg/nat/manager.go:90-115 | a rebuilt table sends what arrives and what the node itself sends to the root chain |
| `NatManager.EmptiedIsUnreferenced` | pkg/nat/manager.go:182-204 | once our chains are empty, nobody refers to a managed chain |
| `NatManager.ExpansionFits` | pkg/nat/plan.go:72-141 | every planned ruleset meets what applying it needs |
| `NatBalance.BalanceIsUniform` | pkg/nat/plan.go:101-141 | with 1/(n-i) at step i, each remaining backend is reached with equal probability |
| `NatBalance.ApartIsCollisionFree` | pkg/nat/plan.go:101-178 | if the hash tells the names, protocols, ports and backends at hand apart, every port of every service and every backend has a chain of its own |
| `NatBalance.UniformAndConfined` | pkg/nat/plan.go:72-141 | a packet to a programmed address is rewritten to each of its n backends with probability exactly 1/n and to nothing else, for every nesting depth of at least two |
| `NatBalance.OtherAddressesUntouched` | pkg/nat/plan.go:72-141 | a packet to any other address is not rewritten |
| `NatBalance.RebuiltRealizes` | pkg/nat/manager.go:158-219 | a rebuilt table is one of which the two rows above hold |
| `ServiceNat.GroupBackends` | pkg/controllers/servicenat_controller.go:132-170 | each service's backends are the IPs of its live ClusterSetIP exports, in order |
| `ServiceNat.BuildServiceDNAT` | pkg/controllers/servicenat_controller.go:132-170 | exactly the ClusterSetIP imports with an address and a live backend, each with its backends and ports, in order |
| `ServiceNat.RewritesAreExported` | pkg/controllers/servicenat_controller.go:132-170 | under such a hash a rewrite of positive probability goes to an IP exported for that service by a cluster not marked down, port kept |
| `ServiceNat.RewritesStayInService` | pkg/controllers/servicenat_controller.go:132-170 | with slash-free namespaces that export is of the same namespace and name as the import |
| `ServiceNat.ServiceIsBalanced` | pkg/controllers/servicenat_controller.go:132-170 | under such a hash, for every port of a service and every spelling of its protocol, each of the n distinct exported addresses gets exactly 1/n |
| `ServiceNat.ImportIsServed` | pkg/controllers/servicenat_controller.go:132-170 | every port of every ClusterSetIP import with an address is served: each of the n distinct addresses of its live exports gets exactly 1/n, on the same port |
| `ServiceNat.KeyInjective` | pkg/dns/aggregate.go:9-14 | names without a slash have distinct keys |
| `RemapText.ShowInjective` | pkg/topology/remap.go:76-76 | distinct IPv4 ranges print differently, so comparing texts compares ranges |
| `RemapText.ShowOctets` | pkg/topology/remap.go:76-76 | an IPv4 range prints as its four octets, highest first, and its prefix length |
| `Remap.VirtualCIDR` | pkg/topology/remap.go:47-77 | defined exactly when pool and range parse and the range fits; keeps the prefix length |
| `Remap.VirtualInPool` | pkg/topology/remap.go:70-76 | the virtual range is an aligned block inside the pool; the 32-bit shift and sum never wrap |
| `Remap.AnySlotsArePossible` | pkg/topology/remap.go:65-76 | clusters and ranges draw independently: whatever slot is chosen for each cluster and IPv4 range, some hash gives exactly those |
| `Remap.ParseCIDRList` | pkg/topology/plan.go:182-190 | the networks of the texts that parse, in order, by address family |
| `Remap.Partition` | pkg/topology/plan.go:112-129 | splits the IPv4 and IPv6 ranges into routable and withheld, order kept, none lost |
| `Remap.PartitionExactly` | pkg/topology/plan.go:112-160 | a range is withheld if and only if it does not parse, is a default route, or shares an address with a local range or with loopback, link-local or multicast space; every other one is routable |
| `Remap.DangerousExactly` | pkg/topology/plan.go:131-153 | an IPv4 range is dangerous if and only if it is a default route or holds an address of 127.0.0.0/8, 169.254.0.0/16 or 224.0.0.0/4 |
| `Remap.DangerousExactly6` | pkg/topology/plan.go:131-153 | an IPv6 range is dangerous if and only if it is a default route or holds an address of ::1, fe80::/10 or ff00::/8 |
| `Remap.Claim` | pkg/topology/remap.go:98-105 | fails exactly when the source gets no range or another source owns it |
| `Remap.ClaimLocals` | pkg/topology/remap.go:121-137 | claims and records every local range that overlaps the peer range |
| `Remap.PlanRemap` | pkg/topology/remap.go:84-146 | succeeds if and only if every involved range is IPv4 and fits and no two share a virtual range; then the plan lists exactly the peer's virtual routes and the overlapped local pairs, sorted |
| `RemapAgreement.Agreement` | pkg/topology/remap.go:84-146 | for canonical, safe ranges, what A routes towards B is exactly what B presents itself under towards A |
| `RemapAgreement.AgreementExactly` | pkg/controllers/meshpeer_controller.go:181-204 | the virtual ranges one side's plan routes are those the other's presents if and only if every withheld range overlaps a range that is safe to remap |
| `RemapAgreement.DangerousRangeIsRoutedOnly` | pkg/controllers/remap_controller.go:110-117 | a dangerous range nobody overlaps is routed by one side and never presented by the other |
| `RemapAgreement.RawTextExactly` | pkg/topology/remap.go:108-129 | hashing raw and canonical text agrees for every hash if and only if the text is canonical or the pool has one block of that size |
| `RemapAgreement.OversubscribedCollides` | pkg/topology/remap.go:70-76 | more equal-sized ranges than blocks always collide |
| `RemapController.BuildEntries` | pkg/controllers/remap_controller.go:76-140 | succeeds if and only if every peer's plan does and no virtual range has two owners anywhere; returns each needed pair once |
| `RemapController.OneToOne` | pkg/controllers/remap_controller.go:76-140 | real and virtual ranges determine each other |
| `RemapController.LocalNeverRouted` | pkg/controllers/remap_controller.go:76-140 | no presented range is also routed to a peer |
| `RemapController.RoutesDisjoint` | pkg/controllers/remap_controller.go:119-125 | peers with distinct cluster IDs share no routed range |
| `RemapController.SameClusterPasses` | pkg/controllers/remap_controller.go:119-125 | a second peer of the same cluster passes although all its routes are taken |
| `RemapController.EqualLengthsDisjoint` | pkg/controllers/remap_controller.go:76-140 | pairs of one prefix length are presented under disjoint blocks |
| `RemapController.ClaimsApart` | pkg/controllers/remap_controller.go:76-140 | all virtual ranges, presented and routed, lie inside the pool, and two of one length share an address only as one claim |
| `RemapController.PresentedApartFromRouted` | pkg/controllers/remap_controller.go:76-140 | a presented and a routed range of one length share no address |
| `RemapController.RoutedApart` | pkg/controllers/remap_controller.go:119-125 | two routed ranges of one length share an address if and only if they are one range of one cluster |
| `RemapController.Overlap6Refuses` | pkg/controllers/remap_controller.go:76-140 | an IPv6 range of one peer that overlaps an IPv6 range of ours refuses the table for all peers |
| `Netmap.BuildRemapRules` | pkg/nat/remap.go:34-68 | one rule per kept entry and direction, inbound first, in entry order |
| `Netmap.PrintedExactly` | pkg/nat/remap.go:34-68 | an entry has its inbound and its outbound rule if and only if neither of its sides is blank |
| `Netmap.PrintedInOrder` | pkg/nat/remap.go:49-54 | the rules of one direction come by virtual range, then by real range, as texts |
| `Netmap.RulesDetermined` | pkg/nat/remap.go:34-68 | the rules depend only on which entries there are |
| `Netmap.NetmapMoves` | pkg/nat/remap.go:25-33 | between blocks of one size NETMAP keeps the offset and mapping back restores the address |
| `Netmap.RoundTripExactly` | pkg/nat/remap.go:25-33 | for ranges that share no address, the reverse table undoes the forward one on an address if and only if the address is translated or is nobody's translation |
| `Netmap.RestoredExactly` | pkg/nat/remap.go:25-33 | with ranges that may nest, a translated address is restored if and only if no earlier rule's virtual range holds its presented address |
| `Netmap.UndoneExactly` | pkg/nat/remap.go:25-33 | which addresses the reverse table restores, for any ranges |
| `Netmap.UnusedVirtualMoves` | pkg/nat/remap.go:25-33 | an address of a virtual range that is in no real range is sent to a real host |
| `Netmap.AllRestoredExactly` | pkg/nat/remap.go:25-33 | for disjoint real ranges every translated address is restored, in whatever order the rules are, if and only if no two virtual ranges share an address |
| `Netmap.RulesRoundTripExactly` | pkg/nat/remap.go:34-68 | the same of the printed rules, for any ranges |
| `Netmap.NestedMisroutes` | pkg/nat/remap.go:49-54 | with nested virtual ranges, the wider one listed first misroutes every address of the narrower |
| `RemapDelivery.ProgrammedBijective` | pkg/controllers/remap_controller.go:76-140 | built entries of one length over disjoint local ranges translate bijectively |
| `RemapDelivery.ProgrammedPrintApart` | pkg/controllers/remap_controller.go:76-140 | built entries print differently, as the rule builder needs |
| `RemapDelivery.InboundUndoesOutbound` | pkg/nat/remap.go:34-68 | for all built entries inbound undoes outbound on an address if and only if no earlier rule's virtual range holds its presented address, or it is in no real and no virtual range |
| `RemapDelivery.EqualLengthsUndo` | pkg/nat/remap.go:34-68 | with one prefix length, exactly on remapped local addresses and addresses in no virtual range |
| `RemapDelivery.AllHostsRestoredExactly` | pkg/nat/remap.go:34-68 | all remapped hosts of a built table are restored if and only if no two virtual ranges share an address |
| `RemapDelivery.PresentedIsRoutedExactly` | pkg/topology/remap.go:84-146 | A routes the range B presents an entry under if and only if the entry's real range overlaps one of A's |
| `RemapDelivery.Delivery` | pkg/topology/remap.go:84-146 | a host of B in an overlapped range is presented under the first entry that holds it; A routes that range if and only if the entry overlaps one of A's ranges; B's inbound rules restore the host if and only if no earlier rule's virtual range holds the presented address |
| `RemapDelivery.DeliveredThroughOwnRange` | pkg/topology/remap.go:84-146 | where B's remapped ranges share no address the entry is the range's own and A routes it |
| `RemapDelivery.DeliveredWhenDisjoint` | pkg/topology/remap.go:84-146 | where B's virtual ranges share no address, the host is restored |
| `RemapDelivery.DeliveredWithOneLength` | pkg/topology/remap.go:84-146 | in particular where they have one prefix length and B's ranges are disjoint |
| `RemapDelivery.NestedEntriesPass` | pkg/controllers/remap_controller.go:119-137 | for any pool and two safe ranges of unequal length a site and a peer pass every check with nested virtual ranges, and whichever order the builder prints, a host is not restored |
| `LiveMap.Reconcile` | pkg/dataplane/ebpf/manager.go:63-90 | in every intermediate or failed state a key wanted before and after is present with its old or a wanted value; an unchanged map is not written; a finished diff leaves exactly the stated map |
| `LiveMap.ConvergedExactly` | pkg/dataplane/ebpf/manager.go:63-90 | the result is the wanted map if and only if no key whose final value is already live is listed with another value |
| `LiveMap.AlwaysConvergesExactly` | pkg/dataplane/ebpf/manager.go:63-90 | every starting map converges if and only if no key is listed with two values; then a repeat writes nothing |
| `LiveMap.DuplicateAlternates` | pkg/dataplane/ebpf/manager.go:69-79 | a key listed with two values alternates between them for ever |
| `Ebpf.BuildRemapMaps` | pkg/dataplane/ebpf/maps.go:92-132 | fails exactly when a kept entry is not two equal-sized IPv4 prefixes; otherwise both maps hold exactly the entries, sorted |
| `Ebpf.Manager.SyncRemap` | pkg/dataplane/ebpf/manager.go:46-60 | bad entries touch nothing; a failed sync leaves no gap in either map; a finished one has diffed both |
| `Ebpf.LongestMatch` | pkg/dataplane/ebpf/maps.go:30-36 | trie lookup finds a matching key at least as long as any other |
| `Ebpf.LookupIsFirstMatch` | pkg/dataplane/ebpf/maps.go:80-91 | for ranges that share no address, longest-prefix lookup translates like first match in any order |
| `Ebpf.LookupExactly` | pkg/dataplane/ebpf/maps.go:80-91 | with ranges that may nest, longest-prefix lookup translates an address like first match if and only if the first range that holds it is a longest one |
| `Ebpf.BackendsAgree` | pkg/dataplane/ebpf/maps.go:80-132 | for a bijective table, after any finished sync the kernel maps rewrite every address as the iptables rules do, in both directions |
| `Ebpf.BackendsAgreeExactly` | pkg/dataplane/ebpf/maps.go:80-132 | with nested virtual ranges outgoing addresses are rewritten alike, and an incoming one if and only if the first rule that holds it has a longest range |
| `RemapBackends.BuiltBackendsAgreeExactly` | pkg/dataplane/ebpf/manager.go:46-60 | the same of every table the remap controller builds |
| `RemapBackends.NestedBackendsExactly` | pkg/nat/remap.go:49-54 | on two nested ranges the kernel map and the rules the builder prints agree if and only if it prints the longer one first |
| `RemapBackends.NestedSiteParts` | pkg/nat/remap.go:49-54 | for any pool of /9 or longer a site and a peer pass every check whose rules and kernel map differ on an address |
| `Probing.AddressesDistinct` | pkg/dns/allocate.go:74-89 | every name gets its own address, one it tried and nobody had |
| `Probing.NewcomerStability` | pkg/dns/allocate.go:49-88 | decided on the old allocation: names sorted before a newcomer never move, it gets the first address free of theirs, and the new allocation exists with everybody in place if and only if that address was nobody's |
| `Allocate.AttemptInRange` | pkg/dns/allocate.go:94-113 | every address tried is inside the range and not the network address; truncation to the family's width loses nothing |
| `Allocate.AnyAttemptsArePossible` | pkg/dns/allocate.go:91-99 | attempts are independent and reach the whole range: whatever offset is chosen for each key and attempt, some hash tries exactly those, skipping only the network address |
| `Allocate.InPoolExactly` | pkg/edge/allocate.go:103-124 | an address may be pinned if and only if it is in the range and is not the network address |
| `Allocate.SlashFreeNames` | pkg/dns/allocate.go:27-69 | services in namespaces without a slash have distinct names |
| `Allocate.AllocateOne` | pkg/dns/allocate.go:74-89 | the first free address within the budget, recorded as used |
| `Allocate.AllocateClusterSetIPs` | pkg/dns/allocate.go:27-69 | for distinct names the outcome is a function of the set of services; errors exactly on a bad range, too few addresses or an exhausted budget; all addresses in range |
| `Allocate.ServicesDistinct` | pkg/dns/allocate.go:27-69 | service addresses are pairwise distinct, in range and never the network address |
| `Allocate.ServiceStability` | pkg/dns/allocate.go:49-88 | the same for services, although the budget grows with them |
| `EdgeAllocate.PinAll` | pkg/edge/allocate.go:71-86 | succeeds exactly when every pin is usable and no two devices pin one address; then each pin is reserved and recorded |
| `EdgeAllocate.PinsFitExactly` | pkg/edge/allocate.go:71-86 | pins fit if and only if each is a single address that may be handed out and no two devices claim one |
| `EdgeAllocate.PlaceFree` | pkg/edge/allocate.go:88-100 | the free devices get the probing allocation around the pins, pins unchanged |
| `EdgeAllocate.AllocateDeviceIPs` | pkg/edge/allocate.go:40-101 | for distinct keys a function of the set of claims: bad pins refused, pins honoured, the rest allocated around them |
| `EdgeAllocate.DevicesDistinct` | pkg/edge/allocate.go:40-143 | no two devices share an address |
| `EdgeAllocate.EdgeIsClusterSet` | pkg/edge/allocate.go:126-143 | distinct devices without pins and services under the same strings: both allocators place everybody or neither does, and the addresses agree |
| `Syncer.Syncer.UpsertDesired` | pkg/syncer/syncer.go:149-165 | only upserts happen; if all succeed every wanted peer is written and nothing else |
| `Syncer.WantExactly` | pkg/syncer/syncer.go:149-165 | wanted are exactly the named clusters other than the local one, each under the spec listed last for its name |
| `Syncer.LocalIsNotWanted` | pkg/syncer/syncer.go:149-165 | the local cluster gets no peer, unless another cluster's name is sanitized to the same |
| `Syncer.Syncer.Prune` | pkg/syncer/syncer.go:205-224 | only stale labelled peers are deleted; unlabelled, kept and terminating ones are untouched |
| `Syncer.Syncer.SyncOnce` | pkg/syncer/syncer.go:92-130 | a pass with a failed upsert deletes nothing; the revision is recorded only for a finished pass; a skip changes nothing |
| `Syncer.Drive` | pkg/syncer/syncer.go:92-224 | any passes of a syncer with any call failing, and finalizers dropped in between, form a run of the kind the next rows speak of |
| `Syncer.SkipSoundExactly` | pkg/syncer/syncer.go:99-105 | later skips are sound, whichever deletions complete, if and only if no wanted peer was terminating when the revision was recorded |
| `Syncer.SkippedPassIsSound` | pkg/syncer/syncer.go:92-130 | in every run with failures, if revisions are not reused, every skipped pass after a clean recording finds exactly what a full converge would leave |
| `Syncer.ReturnBeforeFinalized` | pkg/syncer/syncer.go:179-199 | a cluster returning before finalization makes a skip unsound |
| `Syncer.ReusedRevision` | pkg/syncer/syncer.go:99-105 | a revision served again after a half-finished change makes a skip unsound |
| `Routed.PlanRoutes` | pkg/routed/plan.go:37-68 | fails exactly when the next hop is no address or a non-empty CIDR does not parse or is of the other family; otherwise the parsed destinations of the non-empty texts, one route each through the hop, sorted |
| `Routed.Manager.ConfigurePeer` | pkg/routed/manager.go:53-89 | an invalid plan changes nothing; a valid one is the one attempted: it is installed and stale routes withdrawn, or rolled back |
| `Routed.Manager.RemovePeer` | pkg/routed/manager.go:93-100 | withdraws the recorded routes and forgets the peer |
| `Routed.Manager.DeleteRoutes` | pkg/routed/manager.go:112-118 | deletes exactly the routes the kernel holds as recorded |
| `Routed.ConfiguredExactly` | pkg/routed/manager.go:63-83 | a route is there afterwards if and only if it is planned, or neither the plan nor the peer's record touches it |
| `Routed.RunsLeaveNoOrphans` | pkg/routed/manager.go:53-118 | in every run with failing installs every kernel route is recorded under a peer |
| `Routed.ExactlyPlanned` | pkg/routed/manager.go:53-89 | after a success the peer's destinations carry exactly the planned routes, also after a next-hop change |
| `Routed.RemovalLeavesNone` | pkg/routed/manager.go:93-100 | removal leaves no route to a destination of the peer's own |
| `Routed.OthersUntouched` | pkg/routed/manager.go:53-118 | no call touches a route of a peer with other destinations |
| `Routed.RollbackRestoresExactly` | pkg/routed/manager.go:64-72 | a failed configure leaves the kernel as it was if and only if no destination it reached was routed before |
| `Routed.RollbackTakesDownWorking` | pkg/routed/manager.go:64-72 | a configure that re-adds a working route and fails on the next leaves neither |
| `Routed.SharedRouteIsLost` | pkg/routed/manager.go:93-100 | removing one of two peers that share a route takes down the other's |
| `MeshPeer.Reconciler.Reconcile` | pkg/controllers/meshpeer_controller.go:99-141 | whatever fails, a reconcile has one of six effects it was entitled to; when nothing fails it has the one that is due |
| `MeshPeer.Reconciler.ReconcileApply` | pkg/controllers/meshpeer_controller.go:206-222 | a rotated key is removed before the new one is programmed and cached |
| `MeshPeer.Reconciler.ReconcileDelete` | pkg/controllers/meshpeer_controller.go:247-268 | the object goes only after the key in its spec was removed |
| `MeshPeer.DueConverges` | pkg/controllers/meshpeer_controller.go:99-268 | the effect that is due leaves a live, fitting peer programmed under its key alone and cached, and nothing of a vanished one; a dying one goes |
| `MeshPeer.EffectsKeepTrack` | pkg/controllers/meshpeer_controller.go:99-222 | every effect keeps what is programmed for each peer at most its cached key, but for the peer it finalizes |
| `MeshPeer.FinalizationExactly` | pkg/controllers/meshpeer_controller.go:247-268 | finalization leaves nothing programmed for its peer if and only if the cached key is the one in the spec or is not programmed |
| `MeshPeer.RunKeepsTrack` | pkg/controllers/meshpeer_controller.go:99-268 | peer by peer, across applies, edits, failures, vanished objects and whatever happens to other peers, what is programmed for a peer is at most its cached key |
| `MeshPeer.TrackedThroughoutExactly` | pkg/controllers/meshpeer_controller.go:99-268 | a run keeps that throughout for a peer if and only if each of its finalizations finds the cached key in the spec or not programmed |
| `MeshPeer.EditedThenDeleted` | pkg/controllers/meshpeer_controller.go:251-258 | a key edited and not yet applied when the object is deleted strands the old key for ever |
| `Probe.StoredIsCurrent` | pkg/probe/probe.go:125-135 | the suppressed status has the latest health bit; attempt and success lag by less than the refresh interval |
| `Probe.WritesBounded` | pkg/probe/probe.go:125-135 | at most one write, plus one per change of outcome, plus one per elapsed refresh interval |
| `Probe.FlipsExactly` | pkg/probe/probe.go:125-135 | the changes counted there are the probes whose outcome differs from the one before |
| `Probe.EvictionBounds` | pkg/controllers/servicenat_controller.go:206-219 | with a recent last probe a peer is evicted once no success lies within the window and kept while one lies within the window less a refresh interval |
| `Probe.SlackIsNeeded` | pkg/agent/agent.go:713-716 | inside that last interval a peer with a success in the window can be evicted |
| `Probe.DownClusters` | pkg/controllers/servicenat_controller.go:177-192 | exactly the named clusters with a peer that is down |
| `Probe.DownExactly` | pkg/controllers/servicenat_controller.go:177-219 | a cluster is down if and only if a peer of it is in error, or was probed within the window without a success in it, or was not and its last handshake is older |
| `Probe.Publisher.Record` | pkg/probe/probe.go:125-135 | keeps the stored status and the write count equal to the fold |
| `Import.PlanServiceImport` | pkg/dns/naming.go:91-128 | the plan of the exports sorted oldest first, field by field |
| `Import.MergePorts` | pkg/dns/naming.go:133-147 | the first port of a key stays; each later one of another name is one conflict |
| `Import.SortedPorts` | pkg/dns/naming.go:151-166 | the merged ports in strict (number, protocol) order |
| `Import.OrderIndependent` | pkg/dns/naming.go:91-128 | with distinct (time, cluster) pairs every input order gives the same plan |
| `ImportOrder.OnePlanExactly` | pkg/dns/naming.go:91-147 | every input order gives the same plan if and only if exports tied for oldest are of one type, those tied for first offering a port name it alike, and the conflicts of tied exports commute |
| `ImportOrder.TiedTypesHaveTwoPlans` | pkg/dns/naming.go:99-107 | two exports of one time and cluster but two types have two plans |
| `Import.OldestWins` | pkg/dns/naming.go:99-107 | the resolved type is that of an export none is earlier than, the lowest cluster name among those of its time |
| `Import.EveryExportAccounted` | pkg/dns/naming.go:113-124 | each export of the winning type is listed and each other one has its type conflict, as often as exported; together they number the exports |
| `Import.PortsExactly` | pkg/dns/naming.go:133-166 | the plan has a port exactly for the keys of contributing exports |
| `Import.FirstNameWins` | pkg/dns/naming.go:133-147 | each planned port is the first with its key, oldest first, name included |
| `Import.PortConflictsExactly` | pkg/dns/naming.go:133-147 | a port conflict is listed if and only if a contributing export of that cluster names the port differently from the planned one |
| `Import.ProtocolExactly` | pkg/dns/naming.go:182-189 | a blank protocol stands for TCP, any other is taken as written |
| `Import.ClustersInNameOrderExactly` | pkg/dns/naming.go:118-118 | the cluster list is in name order if and only if no contributing export is older than one of an earlier name |
| `Import.ClustersOutOfNameOrder` | pkg/dns/naming.go:118-118 | an older export of a later name comes first |
| `Retry.Backoff` | pkg/client/retry.go:35-53 | with wrapping 64-bit doubling, min(base * 2^k, cap) for positive base and cap, and the exact value otherwise |
| `Retry.Client.AuthorizedDo` | pkg/client/controlplane.go:397-427 | outcome and steps are those of the reference walk over the replies; the token changes only through a refresh |
| `Retry.RequestsBounded` | pkg/client/controlplane.go:397-490 | at most one refresh, and at most one request more than the attempts, that one only thanks to a refresh |
| `Retry.OutcomeCounts` | pkg/client/controlplane.go:397-427 | the outcome names the last request sent |
| `Retry.AnswerIsFinal` | pkg/client/controlplane.go:442-490 | an answer is neither retryable nor a first auth failure, and every reply before it was one of the two |
| `Retry.StatusDecides` | pkg/client/controlplane.go:442-490 | against a server that always answers one status, 429 and 500 to 599 are tried until the attempts run out, 401 and 403 once more, any other is the answer |
| `Retry.FailuresDecide` | pkg/client/controlplane.go:442-469 | a request that cannot be built is not tried again, one the transport loses is |
| `Retry.RefreshAfterRetrySleeps` | pkg/client/controlplane.go:397-427 | a run in which the request after a refresh waits the last backoff step a second time |
| `Retry.RefreshImmediateOnFirst` | pkg/client/controlplane.go:397-427 | of a whole run: the refreshed request goes out at once if and only if the first reply was the auth failure |

## Left out

- FirewallManager.Manager.SyncFirewall: speaks of the verdict at our own jumps. Foreign rules are passed over, so an ACCEPT
  that somebody put above our jump is outside the claim.
- FirewallManager.GuardEnsuredExactly: judges rules with the options the planner prints and the targets ACCEPT, DROP and
  RETURN; other matches and jumps to user chains are not interpreted.
- FirewallManager.WindowFailsClosedExactly: the same; guard rules with other options or targets are outside the claim.
- NatManager.Manager.SyncClusterSet: assumes, as iptables demands for deletion, that no foreign chain jumps into ours.
- Netmap.BuildRemapRules: assumes that distinct entries print differently, which holds of texts; the model's texts are
  parsed ranges or malformed ones. Of built entries it is proved (`ProgrammedPrintApart`).
- RemapDelivery.Delivery: follows addresses, not routing tables or the tunnel; ranges are canonical and IPv4.
- Ebpf.BackendsAgreeExactly: real ranges share no address; a table that lists one range twice is the subject of
  `AlwaysConvergesExactly`.
- Syncer.SkippedPassIsSound: a deletion completes between passes, not in the middle of one, and nobody else edits the
  peers.
- Routed.RunsLeaveNoOrphans: deletes work; a failed delete is logged by the code and leaves an orphan.
- MeshPeer.RunKeepsTrack: no agent restart, no shared keys, all-or-nothing data-plane calls; which CIDRs are routed and
  the status fields are not modelled.
- Probe.EvictionBounds: one publisher whose probe times increase; several nodes writing one status are not modelled.
- Retry.Client.AuthorizedDo: replies are a parameter; jitter and sleeping time are not modelled.
- Import.PlanServiceImport: conflict messages are values, not texts.
- FirewallPlan.BuildFirewall: CIDR parsing is a parameter that gives an IPv4 block or nothing.
- The text of IPs outside the remap, HTTP transport, mutexes, timers and metrics.
- `syncRemap` of pkg/nat/manager.go, which flushes two chains and appends the rules: it would only add easy members.
- IPv4-mapped IPv6 texts, mixed-family backends behind one VIP, gateway masquerading and the no-masquerade rules.
- pkg/wg, whose route bookkeeping follows the same protocol as pkg/routed.
- pkg/agent, cmd, internal, pkg/signal, pkg/evidence, pkg/metrics, pkg/bootstrap, pkg/verify, pkg/slo, pkg/meshgraph and
  pkg/impact: wiring, reports and codecs over libraries that are not part of this model.
- `PlanPeer`, `PlanTargets`, `Classify`, `GroupExports` and conflict detection: decisions read off one body.
- Concrete FNV and SHA values, and that allocation succeeds: the probe budget can run out.
