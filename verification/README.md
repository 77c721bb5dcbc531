# Oakestra Net: a verified model

Oakestra Net gives services semantic addresses. A packet to a service address is
rewritten by the proxy of its node to the namespace address of one instance and
tunnelled to that instance's node; answers are rewritten back through a cache.
Root, clusters and nodes keep the addresses and tables that this needs. This
project models that machinery in Dafny and proves what it promises over every
input, run or interleaving.

Code that computes a value is a function; code that changes state is a class
whose methods are proved against such functions (`View()` is the value an
object stands for); the promises are lemmas about the functions and about runs
of events.

| files | part of the system |
|---|---|
| `RootAddresses`, `RootPools`, `RootPreview`, `ReleaseOrder`, `ServiceAddresses`, `NetCache` | the root's five address pools: successor arithmetic, allocation and release, the preview, the order assertion of a release, chosen and allocated service addresses together, and the store they live in |
| `NodePools`, `Environment`, `GlobalUniqueness` | container addresses of a node, deployment and detachment, and root and nodes together |
| `ProxyCacheSpec`, `ProxyCache`, `FifoRefinement` | the conversion cache: one ring per source port |
| `TranslationTable`, `SwapDelete`, `Slice` | the node's translation table and the slice with swap-delete |
| `ProxyTunnelSpec`, `ProxyTunnel`, `NatTransparency` | packet translation on one node, and requests with their answers over two nodes or one |
| `OverlayRanges` | which addresses of root and nodes the proxy takes for service addresses |
| `TableQuery`, `JobUpdates`, `InterestTable` | pending table queries; interest registrations, their self-destruct timers and the table entries these drop |
| `ClusterSpec`, `ClusterSteps`, `ClusterCoherence`, `ClusterManager` | job caches and interest lists of clusters and root, what each handler does to every job, and what runs keep of them |
| `Bytes`, `Addresses`, `Wrappers` | big-endian bytes, IP addresses, Option and Result |

## Modelling decisions

- A `net.IP` is a value up to `Equal`: none, IPv4 or IPv6. At the root an address is the list of ints it is in the database.
- Serialization, in a library that is not part of this model, fails exactly when a header cannot carry its addresses: an IPv4 header needs two IPv4 addresses, an IPv6 header any two. Addresses read from text have sixteen bytes.
- The clock is an integer parameter, the random pick of an instance a parameter (reduced modulo the number of candidates), a table query its reply, an operating-system call a member of the set of calls that succeed.
- An in-use lookup is the set of addresses that it finds. The allocator passes raw bytes and the preview text, while stored job addresses are text, so each has a set of its own; the allocator's is empty in the code as it is, and the results hold for every set.
- Each of the five root pools is one `Pool` with a `Kind`; the source has a copy of the code for each.
- A document store is a map or a sequence. `find_one` and `find().limit(x)` read in insertion order. A frontier document that does not exist yet reads as the pool's first address.
- Names and addresses in text form are parsed by the caller. The deployed-services key, the text `name.number`, is the pair.
- The root knows a cluster by its address: a query carries the address that the cluster reports, a withdrawal nothing but the address it comes from, and either is looked up among the registered ones, in order. The three addresses are independent texts; a caller that sends no identity is one whose address is not registered.
- A deployment or detachment is one step, as is each handler of a service manager; the locked sections of table queries and the teardown of timers are separate steps.
- `EnvironmentManager.constructor` requires room for a whole block behind its subnet addresses, which every subnet of the root's pools has (`EverySubnetIsAssignable`).

## Where the code decides

- The last address of every pool is never issued, because the successor is computed first. The preview may list it (`PreviewAgreesWithAllocation`).
- The allocator compares bytes with texts and so finds no job; the preview does. The preview then agrees with the allocations exactly while no job has an address within their reach (`PreviewOfBlindAllocation`), and exactly then no address of a job is issued (`BlindIssuesJobAddresses`). A job that chose 10.30.0.0 itself is an example (`ChosenAddressIsIssued`).
- A preview with x = 0 lists every cached address.
- The order assertion of a release compares unpadded decimal texts, and for IPv6 service addresses leaves out the byte that tells the two blocks apart. `ReleaseOrderExactly` says in every pool for which addresses and frontiers it is right; `ReleaseOrderMisjudges` and `ReleaseOrderMisjudgesBlocks` give both kinds of error. Pool safety therefore rests on callers that give back only what they hold (`ReleaseConservesExactly`); `DoubleReleaseIssuesTwice` shows what happens otherwise.
- A subnet that ends in 192 can never be given back, so it stays with the worker that got it (`LastQuarterStaysHeld`).
- A node issues 61 IPv4 addresses although a comment speaks of 62. The node README speaks of 10.32.0.0/16 and /24 bridges; the code uses 10.30.0.0/16 and /26. A comment names fdfd as the first reserved worker prefix; the code tests fdfe. A comment gives timers five minutes; the code waits ten seconds.
- The configuration file that is installed names fcef::/21 as the IPv6 overlay, which holds no service address of the root, so every packet to an IPv6 service is dropped; the built-in fc00::/7 holds all of them, and all container addresses too (`PacketsToServices`, `ContainersInOverlay`).
- Clusters may register one address with different ports. The root takes both for the first of them, so the second is not told of changes to the jobs it caches (`SharedAddressIsNotNotified`). `RunCoherentExactly` says exactly which queries and withdrawals go wrong; with addresses of their own, clusters are safe (`OwnAddressRunsAreCoherent`).
- A lookup registers its interest before it adds entries. Refused by an old timer that has unsubscribed already, it adds them after that timer has run out, and nothing watches them (`LateLoadIsUnwatched`, `EntriesWatchedExactly`).
- A job may choose its service address ahead of the frontier, and the allocator later gives it to another job (`ChosenThenIssued`). `JobsSeparateExactly` says exactly when; choices behind the frontier are safe (`ChosenBehindIsSeparate`).
- The tunnel device of every node has 10.19.1.254 and fcef::dead:beef, which the node on the subnets 10.19.1.192 or fcef::dead:be00 can give to a container as well (`TunnelAddress4Exactly`, `TunnelAddress6Exactly`).
- Deploying over a live key loses the addresses of the old record (`LostExactlyByOverwriting`).
- A packet to destination port 0 never reuses its cached conversion (`SecondPacketFollows`), and its cache entry does not take the ring slot it lands on (`PortZeroBreaksTheQueue`).
- Within one source port, the ring overwrites on destination port alone, so flows that share a port pair displace each other; on one node with one port for both directions this breaks transparency (`SharedNodeTransparency`).
- A table query that times out leaves its key pending until a response names it (`PendingExactly`), so later queries for it are refused.
- A deployment notice for a job that is not cached inserts it without instances (`NoticeBringsInstances`).

## Model

| member | source | states |
|---|---|---|
| `RootAddresses.IncreaseAddsOne` | root-service-manager/service-manager/network/subnetwork_management.py:392-453 | each successor function stays in its pool, adds exactly one to the pool rank, and raises "exhausted" exactly at the pool's last address |
| `RootAddresses.IncreaseInjective` | root-service-manager/service-manager/network/subnetwork_management.py:392-453 | two addresses never have the same successor |
| `RootAddresses.RankInjective` | root-service-manager/service-manager/network/subnetwork_management.py:392-453 | a pool address is determined by its rank |
| `RootAddresses.PoolPassesStore` | root-service-manager/service-manager/interfaces/mongodb_requests.py:264-279 | every pool address passes the assertions of the frontier updates of its pool |
| `RootAddresses.StoreAcceptsExactly` | root-service-manager/service-manager/interfaces/mongodb_requests.py:264-580 | of the other pools' addresses a store's assertions let none through, except that the worker subnet store takes every IPv6 service address |
| `RootAddresses.StoreBlocks` | root-service-manager/service-manager/interfaces/mongodb_requests.py:264-580 | by their prefixes: the stores accept 10.30.0.0/16, 10.18.0.0 to 10.29.255.255, fdff::/24 and fdff:800::/24, fdff:2000::/29, and fc00::/7 |
| `RootAddresses.BaseIsFirst` | root-service-manager/service-manager/interfaces/mongodb_requests.py:245-261 | the address an empty store starts from is the first of its pool |
| `RootAddresses.Subnet4Block` | root-service-manager/service-manager/network/subnetwork_management.py:423-434 | IPv4 worker subnets are the 64-address blocks above 10.18.0.0 in rank order and end below 10.30.0.0 |
| `RootAddresses.Subnet6Block` | root-service-manager/service-manager/network/subnetwork_management.py:437-453 | IPv6 worker subnets are the 256-address blocks above fc00:: in rank order |
| `RootAddresses.Subnet6BelowServices` | root-service-manager/service-manager/network/subnetwork_management.py:446-451 | every /120 worker block lies below fdfe::, and so below all instance and round-robin addresses |
| `RootAddresses.PoolsDisjoint` | root-service-manager/service-manager/interfaces/mongodb_requests.py:347-444 | no address belongs to two of the five pools |
| `RootPools.ScanTakesLeastUnused` | root-service-manager/service-manager/network/subnetwork_management.py:75-93 | the allocation loop ends, returns the least address at or above the frontier that is not in use, and leaves the frontier just past it; if it raises, the frontier is at the pool's last address |
| `RootPools.ScanRaisesExactlyWhenExhausted` | root-service-manager/service-manager/network/subnetwork_management.py:199-215 | the loop raises if and only if every address from the frontier to below the last one is in use |
| `RootPools.FrontierAllocation` | root-service-manager/service-manager/network/subnetwork_management.py:75-134 | with nothing cached, a service pool issues the least unused address from the frontier on, a worker subnet pool the frontier itself, and the frontier moves just past it |
| `RootPools.FrontierRaises` | root-service-manager/service-manager/network/subnetwork_management.py:253-270 | it raises if and only if no such address is left below the last one |
| `RootPools.ReleasedComeFirst` | root-service-manager/service-manager/interfaces/mongodb_requests.py:196-210 | released addresses are issued before all others, in the order of their release, and the frontier stays |
| `RootPools.ReleasedComesBack` | root-service-manager/service-manager/interfaces/mongodb_requests.py:230-242 | an accepted release is issued again right after the releases before it |
| `RootPools.RangeAcceptsExactly4` | root-service-manager/service-manager/network/subnetwork_management.py:96-158 | the range assertions of a release accept exactly the IPv4 pool addresses with any first octet, except subnets that end in 192 |
| `RootPools.RangeAcceptsExactly6` | root-service-manager/service-manager/network/subnetwork_management.py:273-385 | and exactly the IPv6 service addresses with any fourth to sixth byte, and the IPv6 subnets with any last byte together with the prefixes from fdfe:: |
| `RootPreview.ShortOnlyAtTheTop` | root-service-manager/service-manager/network/subnetwork_management.py:253-270 | x allocations in a row stop short only with the frontier at the last address |
| `RootPreview.PreviewAgreesWithAllocation` | root-service-manager/service-manager/network/subnetwork_management.py:45-70 | the preview lists, in order, what the next x allocations return, plus at most the last address if they run out, if and only if the two lookups agree about every address the allocations pass, and nothing is cached if x = 0 |
| `RootPreview.FrontierShows` | root-service-manager/service-manager/network/subnetwork_management.py:221-248 | the same for the part of the preview past the cache |
| `RootPreview.PreviewOfBlindAllocation` | root-service-manager/service-manager/network/subnetwork_management.py:75-93 | with an allocator whose lookup finds nothing, the preview agrees if and only if its own lookup finds no address that the allocations can reach |
| `RootPreview.IssuedFreeOfJobs` | root-service-manager/service-manager/network/subnetwork_management.py:85-91 | no issued address belongs to a job if and only if no cached address among those taken does and the lookup finds every job's address that the allocations pass |
| `RootPreview.BlindIssuesJobAddresses` | root-service-manager/service-manager/network/subnetwork_management.py:89-91 | with a lookup that finds nothing, that is if and only if no job has a cached or reachable address |
| `RootPreview.BlindAllocations` | root-service-manager/service-manager/network/subnetwork_management.py:253-270 | with a lookup that finds nothing, x allocations move the frontier by x, less those the cache serves, up to the last address |
| `RootPreview.ChosenAddressIsIssued` | root-service-manager/service-manager/network/subnetwork_management.py:29-41 | a job has chosen the frontier's address: the preview passes it over, the allocation returns it |
| `ServiceAddresses.JobsSeparateExactly` | root-service-manager/service-manager/network/subnetwork_management.py:11-41 | over every run of deployments with chosen or allocated addresses, instances and removals, no two jobs share an address all the way if and only if no allocation comes upon an address that another job has |
| `ServiceAddresses.StepSeparateExactly` | root-service-manager/service-manager/operations/service_management.py:11-34 | the same for one step; a chosen address is never another job's |
| `ServiceAddresses.ChosenBehindIsSeparate` | root-service-manager/service-manager/network/subnetwork_management.py:29-41 | if every chosen address is outside the pool or behind the frontier when it is chosen, no two jobs ever share one |
| `ServiceAddresses.ChosenThenIssued` | root-service-manager/service-manager/network/subnetwork_management.py:75-93 | a job chooses the first address of a new pool and the next job is given it |
| `ServiceAddresses.ChosenExactly` | root-service-manager/service-manager/network/subnetwork_management.py:29-41 | while jobs are separate, a chosen address takes effect if and only if no other job or instance has it; the job then starts without instances, and other jobs and the pool stay |
| `ServiceAddresses.AllocatedExactly` | root-service-manager/service-manager/operations/service_management.py:11-34 | without a choice the job gets the pool's next address; an exhausted pool changes no job |
| `ServiceAddresses.InstanceStoredExactly` | root-service-manager/service-manager/interfaces/mongodb_requests.py:161-173 | a new instance takes an address in every case, and it is stored if and only if the job exists and the number is new |
| `ServiceAddresses.RemovalsExactly` | root-service-manager/service-manager/operations/service_management.py:37-53 | a job is removed if and only if it has no instances; neither removal gives an address back |
| `ReleaseOrder.ReleaseOrderExactly` | root-service-manager/service-manager/network/subnetwork_management.py:112-115 | in every pool, for a group of addresses and a group of frontiers that differ in the last compared byte only, the order assertion decides "before the frontier" for all members if and only if the groups are one or their stems are too far apart for the missing padding to matter |
| `ReleaseOrder.ReleaseOrderIsReliable` | root-service-manager/service-manager/network/subnetwork_management.py:112-115 | for IPv4 service addresses, that in terms of the two third octets |
| `ReleaseOrder.ReleaseOrderOfSameWidths` | root-service-manager/service-manager/network/subnetwork_management.py:289-312 | for compared bytes with equally many digits the order assertion is right, except that between the two blocks of IPv6 service addresses it is so if and only if blocks and compared bytes are in one order |
| `ReleaseOrder.ReleaseOrderMisjudges` | root-service-manager/service-manager/network/subnetwork_management.py:96-117 | an IPv4 address before the frontier that is refused, and one past the frontier that is accepted |
| `ReleaseOrder.ReleaseOrderMisjudgesBlocks` | root-service-manager/service-manager/network/subnetwork_management.py:281-314 | fdff::9 and fdff:800::5: one past the frontier is accepted, one before it refused |
| `RootPools.LastQuarterStaysHeld` | root-service-manager/service-manager/network/subnetwork_management.py:145-158 | once issued, a worker subnet ending in 192 stays held in every continuation of the run |
| `RootPools.Run` | root-service-manager/service-manager/network/subnetwork_management.py:75-158 | after every run, held, cached and passed-over addresses are disjoint and together are exactly the pool below the frontier |
| `RootPools.NeverIssuedTwice` | root-service-manager/service-manager/network/subnetwork_management.py:75-134 | no run issues an address that is still held, nor ever the pool's last address |
| `RootPools.SkippedWereInUse` | root-service-manager/service-manager/network/subnetwork_management.py:85-91 | an address is passed over only if some allocation found it in use |
| `RootPools.FrontierPassesStore` | root-service-manager/service-manager/interfaces/mongodb_requests.py:366-384 | the frontier of every run passes the store's assertions |
| `RootPools.PoolBlocksApart` | root-service-manager/service-manager/network/subnetwork_management.py:392-453 | the blocks behind two different addresses of any pools of one family do not overlap |
| `RootPools.IssuedBlocksApart` | root-service-manager/service-manager/network/subnetwork_management.py:317-332 | so the blocks behind any two addresses held in any runs of any pools of one family do not overlap |
| `RootPools.ReleaseConservesExactly` | root-service-manager/service-manager/network/subnetwork_management.py:137-158 | an accepted release keeps the pool partitioned if and only if the caller held the address |
| `RootPools.DoubleReleaseIssuesTwice` | root-service-manager/service-manager/network/subnetwork_management.py:137-158 | giving one subnet back twice makes the pool issue it twice |
| `NetCache.Store.NewServiceAddress` | root-service-manager/service-manager/network/subnetwork_management.py:75-93 | pops the cache, or else moves the frontier until an unused address is found; the new store is that of `Allocate`, and no frontier update fails its assertions |
| `NetCache.Store.NewSubnetwork` | root-service-manager/service-manager/network/subnetwork_management.py:120-134 | the same without a lookup |
| `NetCache.Store.Clear` | root-service-manager/service-manager/network/subnetwork_management.py:96-117 | an accepted release appends to the cache; a refused one changes nothing |
| `NetCache.Store.NextAvailable` | root-service-manager/service-manager/network/subnetwork_management.py:45-70 | lists the preview and leaves frontier and cache as they were |
| `NetCache.Store.PopFree` | root-service-manager/service-manager/interfaces/mongodb_requests.py:196-210 | takes the oldest cached address, if any |
| `NetCache.Store.GetNext` | root-service-manager/service-manager/interfaces/mongodb_requests.py:245-261 | reads the frontier, storing it on the first read |
| `NodePools.NodeConservation` | node-net-manager/env/EnvironmentManager.go:563-607 | over every run, each usable address is exactly one of fresh, cached, held by one live record, or lost with an overwritten record |
| `NodePools.LostExactlyByOverwriting` | node-net-manager/env/ContainerNetDeployment.go:148-156 | addresses are lost if and only if a live key is deployed over |
| `NodePools.FailedDeployChangesNothing` | node-net-manager/env/ContainerNetDeployment.go:59-146 | every failing exit leaves the available addresses of both families and the records unchanged |
| `NodePools.DeploySucceedsExactly` | node-net-manager/env/ContainerNetDeployment.go:34-159 | a deployment succeeds if and only if every one of the operating-system calls succeeds and both families have an address available |
| `NodePools.AnyFailedCallIsUndone` | node-net-manager/env/ContainerNetDeployment.go:59-146 | if any one call fails, there is no service, and availability and records are as before |
| `NodePools.FailedCallExactly` | node-net-manager/env/ContainerNetDeployment.go:41-146 | a failed call before the first address is taken leaves the node as it was; a later one leaves one address of each family, just freed, last in its cache |
| `NodePools.DeployThenDetach` | node-net-manager/env/ContainerNetDeployment.go:161-181 | deploying a key that is not live and detaching it restores availability in both families and the records |
| `Environment.EnvironmentManager.constructor` | node-net-manager/env/EnvironmentManager.go:89-107 | the bridge takes the first address of each subnet, containers start behind it |
| `Environment.EnvironmentManager.GenerateAddress` | node-net-manager/env/EnvironmentManager.go:563-578 | takes the oldest cached IPv4 address, else the next of the block, else fails without change |
| `Environment.EnvironmentManager.GenerateIPv6Address` | node-net-manager/env/EnvironmentManager.go:580-595 | the same for IPv6 with its own limit |
| `Environment.EnvironmentManager.FreeContainerAddress` | node-net-manager/env/EnvironmentManager.go:597-607 | an address goes to the cache of its own family |
| `Environment.EnvironmentManager.DeployNetwork` | node-net-manager/env/ContainerNetDeployment.go:34-159 | the node after a deployment with any set of succeeding calls is that of `Deploy`, about which `DeploySucceedsExactly` and `AnyFailedCallIsUndone` say what it is |
| `Environment.EnvironmentManager.DetachContainer` | node-net-manager/env/ContainerNetDeployment.go:161-181 | frees both addresses and the record, removes the table entry, and the service's entries unless interest is registered |
| `Environment.EnvironmentManager.AddTableQueryEntry` | node-net-manager/env/EnvironmentManager.go:532-538 | removes the entry found for the new one's IPv4 namespace address, then adds the new one if valid |
| `Environment.EnvironmentManager.RefreshServiceTable` | node-net-manager/env/EnvironmentManager.go:541-550 | replaces the job's entries by the response; a failed query changes nothing |
| `Environment.EnvironmentManager.GetTableEntryByServiceIP` | node-net-manager/env/EnvironmentManager.go:473-500 | answers from the table, which a miss extends by the reply of a query; a hit reports the first entry's job as in use, a query registers interest in the first entry's job and in the address |
| `Environment.LookupLearns` | node-net-manager/env/EnvironmentManager.go:473-500 | a hit and a failed query leave the table; an answered miss folds every entry of the response into the map that the table is |
| `Environment.LearnedEntries` | node-net-manager/env/EnvironmentManager.go:488-497 | after a miss every valid entry of the response whose address no later one repeats is in the table, and is in the answer if and only if it lists the service address |
| `Environment.HitReportsUse` | node-net-manager/env/EnvironmentManager.go:475-481 | a hit reports the job of the first entry that lists the address, and registers nothing |
| `Environment.MissRegisters` | node-net-manager/env/EnvironmentManager.go:482-497 | a miss registers interest in the address if and only if the query succeeded, and in the first entry's job if and only if there is one |
| `Environment.DetachLeaves` | node-net-manager/env/ContainerNetDeployment.go:161-181 | after a detachment the table has exactly the entries with another address that are of another job, or of any job while interest is registered |
| `GlobalUniqueness.GlobalUniqueness` | node-net-manager/env/EnvironmentManager.go:563-607 | over every interleaving of joins, deployments and detachments on all nodes, two different live containers share neither an IPv4 nor an IPv6 address |
| `GlobalUniqueness.LostAddressesStayUnique` | node-net-manager/env/ContainerNetDeployment.go:148-156 | nor does a container whose record was overwritten share one with any live container or with another such container, on any node |
| `GlobalUniqueness.EveryAddressInItsBlock` | node-net-manager/env/EnvironmentManager.go:89-107 | every container address lies in its node's block and differs from the network, bridge and IPv4 broadcast addresses |
| `GlobalUniqueness.UsableExactly` | node-net-manager/env/EnvironmentManager.go:563-595 | the addresses a node can give to containers are, as numbers, exactly the 61 behind the IPv4 bridge and the 254 behind the IPv6 one |
| `Addresses.NextIPv4AddsUp` | node-net-manager/network/NetUtils.go:64-73 | steps of the IPv4 successor add up, and 255.255.255.255 is followed by 0.0.0.0 |
| `GlobalUniqueness.AddressesLieInTheBlock` | root-service-manager/service-manager/network/subnetwork_management.py:120-134 | and lies outside the service address ranges |
| `GlobalUniqueness.JoinAddsExactly` | node-net-manager/env/EnvironmentManager.go:141-167 | over every run, a join adds a node if and only if neither subnet pool has come to its last address |
| `GlobalUniqueness.DeploymentRunsExactly` | node-net-manager/env/ContainerNetDeployment.go:34-159 | over every run, a container is live after a deployment if and only if it was before, or every one of the calls succeeded and both families had an address |
| `GlobalUniqueness.FirstContainerRuns` | node-net-manager/env/ContainerNetDeployment.go:148-158 | a run in which a container is live |
| `OverlayRanges.ServicesInOverlay` | node-net-manager/proxy/ProxySetup.go:30-40 | every service address of the root's pools is in the built-in overlay; in the installed one if and only if it is IPv4 |
| `OverlayRanges.ContainersInOverlay` | node-net-manager/config/tuncfg.json:4-10 | over every run, no IPv4 container address is in an overlay, and every IPv6 one is in the built-in overlay |
| `OverlayRanges.PacketsToServices` | node-net-manager/proxy/ProxyTunnel.go:157-178 | a packet to a service of the root's pools is dropped by the built-in overlay if and only if service or sender is unknown or the sender has no instance address to send from; by the installed one also if it is IPv6 |
| `OverlayRanges.PacketsToContainers` | node-net-manager/proxy/ProxyTunnel.go:157-167 | an IPv4 packet to a container address is never translated |
| `OverlayRanges.OverlaysAsRanges` | node-net-manager/proxy/ProxyTunnel.go:157-165 | the masked comparisons accept exactly the addresses of the overlay's range |
| `OverlayRanges.TunnelAddress4Exactly` | node-net-manager/proxy/ProxySetup.go:30-37 | a node can give the IPv4 address of the tunnel device to a container if and only if its subnet is 10.19.1.192 |
| `OverlayRanges.TunnelAddress6Exactly` | node-net-manager/config/tuncfg.json:3-10 | the same for fcef::dead:beef and fcef::dead:be00 |
| `OverlayRanges.TunnelAddressStaysFree` | node-net-manager/proxy/ProxySetup.go:30-37 | over every run, no container on any other subnet has an address of the tunnel device |
| `ProxyCacheSpec.LastWriterWins` | node-net-manager/proxy/proxyCache.go:77-150 | after any history, a hit of either lookup is the latest entry added for its pair of ports |
| `ProxyCacheSpec.LookupsAgree` | node-net-manager/proxy/proxyCache.go:77-112 | forward and reverse lookup never disagree about a pair of ports |
| `ProxyCacheSpec.EvictionDropsExactlyTheIdle` | node-net-manager/proxy/proxyCache.go:56-75 | after any history, an eviction drops exactly the lists whose last addition or hit is longer ago than the timeout |
| `ProxyCache.Cache.Add` | node-net-manager/proxy/proxyCache.go:115-126 | makes the ring if need be and adds the entry; other lists stay |
| `ProxyCache.Cache.AddToConversionList` | node-net-manager/proxy/proxyCache.go:128-150 | overwrites the first slot of the entry's destination port, or else the next slot |
| `ProxyCache.Cache.RetrieveByServiceIp` | node-net-manager/proxy/proxyCache.go:78-95 | the first entry that matches all forward fields, and the refreshed use time |
| `ProxyCache.Cache.RetrieveByInstanceIp` | node-net-manager/proxy/proxyCache.go:98-112 | the first entry that matches port and source, and the refreshed use time |
| `ProxyCache.Cache.EvictOldEntries` | node-net-manager/proxy/proxyCache.go:56-75 | resets every stale list and no other |
| `FifoRefinement.RingRefinesFifo` | node-net-manager/proxy/proxyCache.go:115-150 | over every history of additions, lookups and evictions, a ring stands for a bounded first-in first-out queue with distinct destination ports |
| `FifoRefinement.AddRefinesPush` | node-net-manager/proxy/proxyCache.go:128-150 | one addition: update in place, else push back, dropping the oldest when full |
| `FifoRefinement.PortZeroBreaksTheQueue` | node-net-manager/proxy/proxyCache.go:133-149 | for port 0 the ring matches the queue if and only if it is full |
| `FifoRefinement.LookupRefines` | node-net-manager/proxy/proxyCache.go:77-112 | ring and queue answer every lookup alike |
| `FifoRefinement.EntrySurvivesExactly` | node-net-manager/proxy/proxyCache.go:145-149 | under additions for new ports an entry survives if and only if they are no more than the free places and the entries before it |
| `FifoRefinement.NewestTenStay` | node-net-manager/proxy/proxyCache.go:128-150 | additions for new ports leave exactly the ten newest entries, in the order of their additions |
| `FifoRefinement.FlowStaysCached` | node-net-manager/proxy/proxyCache.go:56-150 | a new flow's entry is found while its port pair is not added again, fewer than ten entries are added to its list and evictions come within the timeout |
| `TranslationTable.RemoveJobLeavesOthers` | node-net-manager/TableEntryCache/serviceTranslationTable.go:83-99 | removing a job leaves exactly the multiset of entries with other job names |
| `TranslationTable.TableIsAMap` | node-net-manager/env/EnvironmentManager.go:532-561 | over every run of query results, refreshes and removals with typed addresses, the table never holds two entries with one address and is the map that the same run makes |
| `TranslationTable.RefreshIsAFold` | node-net-manager/env/EnvironmentManager.go:541-550 | on tables and responses with typed addresses, addresses stay unique and a refresh is: drop the job's keys, then for each entry drop its key and insert it if valid |
| `TranslationTable.RefreshLeavesOtherJobs` | node-net-manager/env/EnvironmentManager.go:541-550 | an entry of another job whose address the response does not name is in the table afterwards if and only if it was before |
| `TranslationTable.AddKeepsUniqueExactly` | node-net-manager/env/EnvironmentManager.go:532-538 | on any table without repeated addresses, adding a valid entry keeps it so if and only if the entry with its address, if any, is the one the removal finds first |
| `TranslationTable.UntypedEntryRepeatsAddress` | node-net-manager/TableEntryCache/serviceTranslationTable.go:65-81 | a table where an addition leaves two entries with one address |
| `TranslationTable.SearchByServiceIpMembers` | node-net-manager/TableEntryCache/serviceTranslationTable.go:111-126 | a search finds exactly the entries that list the address |
| `TranslationTable.SearchInOrder` | node-net-manager/TableEntryCache/serviceTranslationTable.go:111-126 | the answer goes through the table in order, with every entry as often as its addresses match |
| `TranslationTable.LastEntryStays` | node-net-manager/env/EnvironmentManager.go:532-538 | of a response, a valid entry whose address no later one repeats is in the map afterwards |
| `TranslationTable.TableManager.RemoveByJobName` | node-net-manager/TableEntryCache/serviceTranslationTable.go:83-99 | the loop with changing bounds ends, stays in range and leaves the table of `RemoveJob` |
| `TranslationTable.TableManager.RemoveByNsip` | node-net-manager/TableEntryCache/serviceTranslationTable.go:65-81 | removes the first entry with the address in either family; fails exactly if there is none |
| `TranslationTable.TableManager.RemoveByIndex` | node-net-manager/TableEntryCache/serviceTranslationTable.go:101-109 | moves the last entry into the gap; -1 removes nothing |
| `TranslationTable.TableManager.Add` | node-net-manager/TableEntryCache/serviceTranslationTable.go:54-62 | appends valid entries and refuses the others |
| `TranslationTable.TableManager.SearchByServiceIP` | node-net-manager/TableEntryCache/serviceTranslationTable.go:111-126 | an entry appears once for each of its addresses that matches |
| `TranslationTable.TableManager.SearchByNsIP` | node-net-manager/TableEntryCache/serviceTranslationTable.go:128-138 | the first entry with the namespace address |
| `SwapDelete.SwapRemovesOne` | node-net-manager/utils/SliceApi.go:73-79 | moving the last element into a gap removes exactly one occurrence of the element there |
| `Slice.WithoutOneCount` | node-net-manager/utils/SliceApi.go:39-43 | removing an element takes one occurrence, if there is one, and nothing else |
| `Slice.GenericSlice.RemoveElem` | node-net-manager/utils/SliceApi.go:39-43 | removes the first occurrence by swap-delete |
| `Slice.GenericSlice.Find` | node-net-manager/utils/SliceApi.go:64-71 | the first position of an element, or -1 |
| `ProxyTunnelSpec.ForwardingSafety` | node-net-manager/proxy/ProxyTunnel.go:167-204 | in every run, a packet goes to the namespace address, of its family, of an entry that lists its service address now; its source is the last instance-number address, in its family, of the first entry with the sender's namespace address, and of its family if the table's service addresses are; ports stay |
| `ProxyTunnelSpec.InstanceIpOfLast` | node-net-manager/proxy/ProxyTunnel.go:213-219 | the last instance-number service address of an entry is taken: its IPv4 address for IPv4, its IPv6 address for IPv6 |
| `ProxyTunnelSpec.InstanceIpOfNone` | node-net-manager/proxy/ProxyTunnel.go:211-219 | an entry without instance number gives no address |
| `ProxyTunnelSpec.SenderIsFirst` | node-net-manager/proxy/ProxyTunnel.go:209-226 | the sender's entry is the first one with its namespace address, of either family |
| `ProxyTunnelSpec.SenderIsUnknown` | node-net-manager/proxy/ProxyTunnel.go:221-224 | the sender is unknown if and only if no entry has it |
| `ProxyTunnelSpec.RemoteAddressExactly` | node-net-manager/proxy/ProxyTunnel.go:315-325 | the tunnel ends at node address and port of the first entry with the address; without one, at port -1 |
| `ProxyTunnelSpec.IngoingMiss` | node-net-manager/proxy/ProxyTunnel.go:230-250 | a packet without a conversion for its ports and its destination, in the list of its destination port, and the cache stay as they are |
| `ProxyTunnelSpec.IngoingHit` | node-net-manager/proxy/ProxyTunnel.go:230-250 | otherwise it comes from the service address of the first such conversion, if its header can carry that, and the list counts as used now |
| `ProxyTunnelSpec.DroppedExactly` | node-net-manager/proxy/ProxyTunnel.go:72-104 | a packet is dropped if and only if its destination is outside the semantic subnetwork, no entry serves it, its sender is unknown, or the sender has no instance address that its header can carry |
| `ProxyTunnelSpec.TranslatedExactly` | node-net-manager/proxy/ProxyTunnel.go:157-178 | the packet is translated, with any table and cache, if and only if none of the first three holds |
| `ProxyTunnelSpec.TunnelledToTheOwner` | node-net-manager/proxy/ProxyTunnel.go:97-101 | if one entry alone has a packet's new destination, of either family, the packet is tunnelled to that entry's node, and the entry serves the packet's service address |
| `ProxyTunnelSpec.OwnersOfIPv4` | node-net-manager/TableEntryCache/serviceTranslationTable.go:128-138 | in a table that is a map, that is every entry with the IPv4 address |
| `ProxyTunnelSpec.FlowKeepsDestination` | node-net-manager/proxy/ProxyTunnel.go:180-204 | while its conversion is found and its destination listed, a flow is sent as before, whatever other flows, picks and table changes come between |
| `ProxyTunnelSpec.SecondPacketFollows` | node-net-manager/proxy/ProxyTunnel.go:180-204 | of two packets of one flow in a row, the second is sent as the first if and only if the destination port is not 0 or both picks choose one address |
| `ProxyTunnelSpec.SentEntry` | node-net-manager/proxy/ProxyTunnel.go:193-204 | after a packet is sent the cached conversion for its ports is the one it was sent with |
| `ProxyTunnelSpec.ProxyOneFamily` | node-net-manager/proxy/ProxyTunnel.go:188-191 | in every run, no cached conversion crosses address families |
| `ProxyTunnel.GoProxyTunnel.OutgoingProxy` | node-net-manager/proxy/ProxyTunnel.go:146-207 | rewrites the packet in place as `Translate` does, with its cache operations, the queried table and the registered interests; nothing is sent if the rewritten packet cannot be serialized |
| `ProxyTunnel.GoProxyTunnel.ConvertToInstanceIp` | node-net-manager/proxy/ProxyTunnel.go:209-226 | the last instance-number address of the sender's entry in the packet's family |
| `ProxyTunnel.GoProxyTunnel.IngoingProxy` | node-net-manager/proxy/ProxyTunnel.go:230-250 | rewrites an answer through the reverse lookup; any other packet, and one that cannot be serialized, is delivered as it came |
| `ProxyTunnel.GoProxyTunnel.LocateRemoteAddress` | node-net-manager/proxy/ProxyTunnel.go:315-325 | node address and port of the first entry with the namespace address, else an invalid port |
| `ProxyTunnel.GoProxyTunnel.OutgoingMessage` | node-net-manager/proxy/ProxyTunnel.go:72-104 | the tunnel's end is looked up for the destination just written into the packet |
| `ProxyTunnel.IpPacket.SerializePacket` | node-net-manager/proxy/iputils/v4Packet.go:93-138 | the packet's own addresses are overwritten; there is a new packet if and only if the header can carry them |
| `NatTransparency.TwoNodeTransparency` | node-net-manager/proxy/ProxyTunnel.go:146-250 | a request from a:p to S:q answered by the chosen instance comes back to a as S:q to a:p, if the server's node knows both containers, no other flow there uses the pair, and the client's conversion was not displaced or evicted |
| `NatTransparency.FirstContact` | node-net-manager/proxy/ProxyTunnel.go:146-250 | two nodes without cached flows and with a table that knows client and service: the exchange is transparent, whatever instance is picked |
| `NatTransparency.FirstContactExample` | node-net-manager/proxy/ProxyTunnel.go:146-250 | such a table |
| `NatTransparency.NewFlowTransparency` | node-net-manager/proxy/ProxyTunnel.go:146-250 | the same for a new flow, with the conversion's survival replaced by a bound on the other traffic of the client's node |
| `NatTransparency.SharedNodeTransparency` | node-net-manager/proxy/ProxyTunnel.go:146-250 | on one node a first exchange is transparent if and only if the ports differ, or S is the picked instance's own address, or client and picked instance are one container |
| `TableQuery.QueriesStayInOrder` | node-net-manager/mqtt/Tablequery.go:98-129 | in every interleaving a key has at most one pending channel, which is empty, a channel gets at most one message, and no send under the lock blocks |
| `TableQuery.PendingExactly` | node-net-manager/mqtt/Tablequery.go:98-112 | a key is pending exactly from a registration until the first response that names it |
| `TableQuery.NoAnswerIsLost` | node-net-manager/mqtt/Tablequery.go:114-129 | a registered channel holds exactly the first response to its key, and a request that has not timed out can take it |
| `TableQuery.QueryKeysExactly` | node-net-manager/mqtt/Tablequery.go:162-171 | the keys a response names are its job, the key of the query, and the IPv4 and IPv6 addresses of its instances, and no others |
| `TableQuery.ResponseExactly` | node-net-manager/mqtt/Tablequery.go:151-187 | handling a whole response clears exactly the keys it names and sends it once to exactly the channels registered for them |
| `TableQuery.TakingExactly` | node-net-manager/mqtt/Tablequery.go:114-129 | a reader takes the message of its channel unless it gave up; nothing else changes |
| `TableQuery.GivingUpExactly` | node-net-manager/mqtt/Tablequery.go:114-129 | a time-out touches no key and no other channel |
| `TableQuery.OutcomeIsFinal` | node-net-manager/mqtt/Tablequery.go:114-129 | over every run, no request both receives an answer and times out, and either is final |
| `TableQuery.RequestCache.BeginQuery` | node-net-manager/mqtt/Tablequery.go:85-110 | refuses while interest is registered, unless forced, and while the key is pending; else registers one channel |
| `TableQuery.RequestCache.TablequeryResultHandler` | node-net-manager/mqtt/Tablequery.go:151-187 | after a response, none of the keys it names is pending, the channels registered for them hold exactly it, and all other keys and channels are as before |
| `TableQuery.RequestCache.NotifyKey` | node-net-manager/mqtt/Tablequery.go:174-186 | one locked round, in which no send blocks |
| `JobUpdates.HandlersMatchTimers` | node-net-manager/mqtt/MqttJobUpdates.go:45-103 | in every interleaving a job is registered at most once and exactly as often as it has timers that have not removed it; its topic is subscribed exactly while some timer has not unsubscribed |
| `JobUpdates.OldTimerSparesNewer` | node-net-manager/mqtt/MqttJobUpdates.go:54-70 | no step of a timer takes down the subscription or handler that another timer still needs |
| `InterestTable.EntriesWatchedExactly` | node-net-manager/env/EnvironmentManager.go:485-497 | in every interleaving, a job with table entries is subscribed or has a timer that will drop them, all the way, if and only if its entries are only loaded while one of its timers is unfinished |
| `InterestTable.EntriesExactly` | node-net-manager/mqtt/MqttJobUpdates.go:54-70 | a job has entries after a step if and only if they were loaded in it, or were there and neither a detachment nor the last step of one of its timers dropped them |
| `InterestTable.LateLoadIsUnwatched` | node-net-manager/mqtt/MqttJobUpdates.go:54-83 | a registration refused between the old timer's unsubscription and its removal of the handler, with the entries added after that timer's end: they stay without subscription or timer |
| `JobUpdates.InterestRegistry.MqttRegisterInterest` | node-net-manager/mqtt/MqttJobUpdates.go:76-103 | a job that is not registered gets its topic, its handler and one timer |
| `JobUpdates.InterestRegistry.TeardownStep` | node-net-manager/mqtt/MqttJobUpdates.go:58-65 | one step of a timer's teardown |
| `ClusterCoherence.Run` | cluster-service-manager/service-manager/network/tablequery/interests.py:6-25 | after every sequence of handler steps, interest lists hold nobody twice, clusters are recorded once, and instance numbers are unique per job |
| `ClusterCoherence.RunCoherentExactly` | root-service-manager/service-manager/operations/instances_management.py:55-78 | over every run, the root lists each cluster for every job it caches, all the way, if and only if every answered query is taken for the asking cluster (or lists it already) and no last withdrawal is taken for another cluster that caches the job |
| `ClusterCoherence.StepCoherentExactly` | root-service-manager/service-manager/network/routes_interests.py:6-15 | the same for one step |
| `ClusterCoherence.OwnAddressesExactly` | root-service-manager/service-manager/interfaces/mongodb_requests.py:648-650 | every registered address finds its own cluster if and only if no two clusters share one |
| `ClusterCoherence.OwnAddressRunsAreCoherent` | cluster-service-manager/service-manager/interfaces/root_service_manager_requests.py:16-24 | runs in which clusters have addresses of their own, from which they ask and withdraw, are coherent all the way |
| `ClusterCoherence.SharedAddressIsNotNotified` | root-service-manager/service-manager/interfaces/mongodb_requests.py:618-632 | two clusters with one address: the second caches a job and the first is notified |
| `ClusterCoherence.CachingClustersAreNotified` | root-service-manager/service-manager/interfaces/mongodb_requests.py:657-674 | in every run of safe steps, every cluster that caches a job is among those notified of its changes |
| `ClusterCoherence.OneWithdrawalSuffices` | cluster-service-manager/service-manager/network/tablequery/interests.py:6-13 | one withdrawal takes exactly that worker off the list; the job stays cached if and only if another worker is on it; otherwise the cluster stays notified if and only if it was and the root was not reached or takes the peer for somebody else |
| `ClusterCoherence.QueryCachesTheJob` | cluster-service-manager/service-manager/network/tablequery/resolution.py:8-46 | a query from a registered address for a job the root has leaves it cached with the worker interested; a new copy has exactly the root's instances; the cluster is notified afterwards if and only if it was, or the root was asked and takes it for itself |
| `ClusterCoherence.NoticeBringsInstances` | cluster-service-manager/service-manager/interfaces/mongodb_requests.py:84-98 | a deployment notice brings the copy up to date if and only if the job was cached or has no instances |
| `ClusterSpec.UpsertFind` | cluster-service-manager/service-manager/interfaces/mongodb_requests.py:101-133 | an upsert adds an unknown instance as it is and changes only the network fields of a known one |
| `ClusterSpec.UpsertAllFind` | cluster-service-manager/service-manager/interfaces/mongodb_requests.py:92-95 | after a list is upserted each of its instances is found with its network fields: a known one is otherwise as before, an unknown one as in the list, and others stay |
| `ClusterSpec.ReportedFind` | cluster-service-manager/service-manager/interfaces/mongodb_requests.py:177-197 | a worker's report changes worker and network fields of its instance and nothing else |
| `ClusterSpec.RelocatedFind` | cluster-service-manager/service-manager/interfaces/mongodb_requests.py:200-215 | an address change touches worker and host of its instance and nothing else |
| `ClusterSpec.PullMembers` | cluster-service-manager/service-manager/interfaces/mongodb_requests.py:136-153 | a pull removes exactly the instances with the number |
| `ClusterSpec.FindExactly` | cluster-service-manager/service-manager/interfaces/mongodb_requests.py:101-133 | with unique numbers, an instance is found under its number and nothing else is |
| `ClusterSteps.UndeploymentExactly` | cluster-service-manager/service-manager/operations/instances_management.py:31-60 | an undeployment leaves the job if and only if some instance has another number, with exactly those instances and with addresses, workers and status as before; -1 drops it, a lower number is refused; all other jobs, here and elsewhere, stay |
| `ClusterSteps.UndeploymentInARun` | cluster-service-manager/service-manager/interfaces/mongodb_requests.py:136-153 | in every run, an undeployment of one instance keeps each other instance, the workers, the addresses and the status |
| `ClusterSteps.WorkerReportExactly` | cluster-service-manager/service-manager/network/deployment.py:5-15 | a report sets the job's status, and worker and network fields of its instance; nothing else changes |
| `ClusterSteps.AddressReportExactly` | cluster-service-manager/service-manager/network/deployment.py:18-29 | an address change sets worker and host of its instance; nothing else changes |
| `ClusterSteps.DeploymentExactly` | cluster-service-manager/service-manager/operations/instances_management.py:49-60 | a deployment notice merges the root's instances into a cached job and keeps its addresses, workers and status; a new copy has the root's addresses and no instances |
| `ClusterSteps.FetchExactly` | cluster-service-manager/service-manager/network/tablequery/resolution.py:30-46 | a job stored from the root: a cached one gets the root's service addresses and merges its instances, a new one is the root's without workers and status |
| `ClusterSteps.CreateServiceFetches` | cluster-service-manager/service-manager/operations/service_management.py:12-28 | creating a service does that in every case |
| `ClusterSteps.CachedQueryExactly` | cluster-service-manager/service-manager/network/tablequery/interests.py:16-18 | a query for a cached job adds the worker, once, and nothing else; the root is not asked |
| `ClusterSteps.UncachedQueryExactly` | cluster-service-manager/service-manager/network/tablequery/resolution.py:30-46 | any other query ends with the root's addresses and instances and this worker, or without the job if the root does not answer |
| `ClusterSteps.QueryByIpExactly` | cluster-service-manager/service-manager/network/tablequery/resolution.py:49-78 | a query by address is one by the name of a job with that service or instance address, of the cluster or else of the root |
| `ClusterSteps.WithdrawalRaises` | cluster-service-manager/service-manager/interfaces/mongodb_requests.py:245-253 | a withdrawal of a worker that is not on a non-empty list changes nothing |
| `ClusterSteps.WithdrawalLeavesOthers` | cluster-service-manager/service-manager/network/tablequery/interests.py:6-13 | one that leaves other workers takes this one off the list, in its place, and the root is not told |
| `ClusterSteps.LastWithdrawalDrops` | cluster-service-manager/service-manager/network/tablequery/interests.py:6-13 | any other one drops the job, and the root is told if it can be reached |
| `ClusterSteps.RemoveServiceExactly` | cluster-service-manager/service-manager/operations/service_management.py:31-50 | removing a service drops its job and nothing else |
| `ClusterSteps.RestartExactly` | cluster-service-manager/service-manager/interfaces/mongodb_requests.py:18-31 | a restarted cluster has no jobs; root and other clusters stay |
| `ClusterSteps.RootQueryExactly` | root-service-manager/service-manager/operations/instances_management.py:55-78 | the first cluster with the caller's address gets the root's job of the name and is listed for it once; for an unknown job its list gets the null name; other lists stay |
| `ClusterSteps.UnknownCallerExactly` | root-service-manager/service-manager/operations/instances_management.py:60-62 | a query or withdrawal from an unknown address changes nothing |
| `ClusterSteps.DeregisterExactly` | root-service-manager/service-manager/interfaces/mongodb_requests.py:677-687 | a withdrawal takes one occurrence of the name off the list of the first cluster with the peer's address |
| `ClusterSteps.RegistrationExactly` | root-service-manager/service-manager/interfaces/mongodb_requests.py:618-632 | a known cluster gets the new address and port and keeps place and interests, a new one is appended without interests |
| `ClusterSteps.RootInsertExactly` | root-service-manager/service-manager/interfaces/mongodb_requests.py:46-74 | an inserted job has its service addresses and no instances; other jobs stay |
| `ClusterSteps.RootRemoveExactly` | root-service-manager/service-manager/interfaces/mongodb_requests.py:77-79 | a removed job goes alone |
| `ClusterSteps.RootUpsertExactly` | root-service-manager/service-manager/interfaces/mongodb_requests.py:141-173 | an upsert of one instance at the root changes its network fields or adds it |
| `ClusterSteps.RootNetStatusExactly` | root-service-manager/service-manager/interfaces/mongodb_requests.py:102-158 | a network status overwrites the network fields of a known instance; an unknown one is left out |
| `ClusterSteps.RootCleanExactly` | root-service-manager/service-manager/interfaces/mongodb_requests.py:176-193 | -1 clears a job's instances, another number takes its instance off; the job stays |
| `ClusterManager.ClusterStore.MongoInsertJob` | cluster-service-manager/service-manager/interfaces/mongodb_requests.py:54-76 | an existing job keeps instances and interested workers, a new one starts without |
| `ClusterManager.ClusterStore.MongoUpdateJobInstance` | cluster-service-manager/service-manager/interfaces/mongodb_requests.py:101-133 | the upsert in the stored job |
| `ClusterManager.ClusterStore.MongoUpdateJob` | cluster-service-manager/service-manager/interfaces/mongodb_requests.py:84-98 | upserts into a cached job, inserts any other |
| `ClusterManager.ClusterStore.MongoRemoveJobInstance` | cluster-service-manager/service-manager/interfaces/mongodb_requests.py:136-153 | takes the instance off and drops the job with its last one; drops it at once for -1; `UndeploymentExactly` says what stays |
| `ClusterManager.ClusterStore.MongoUpdateJobDeployed` | cluster-service-manager/service-manager/interfaces/mongodb_requests.py:177-197 | stores a worker's report, with the status, and returns the stored job |
| `ClusterManager.ClusterStore.MongoUpdateJobAddress` | cluster-service-manager/service-manager/interfaces/mongodb_requests.py:200-215 | stores an address change and returns the job, or nothing if there is no such instance |
| `ClusterManager.ClusterStore.ServiceResolution` | cluster-service-manager/service-manager/network/tablequery/resolution.py:8-46 | answers instances and service addresses from the cache without change, or else stores and returns what the root answers |
| `ClusterManager.ClusterStore.AddInterestOf` | cluster-service-manager/service-manager/network/tablequery/interests.py:16-18 | adds a worker once |
| `ClusterManager.ClusterStore.RemoveInterestOf` | cluster-service-manager/service-manager/network/tablequery/interests.py:6-13 | raises without change for a worker that is not on a non-empty list; else removes it, and with the last one the job; the root then deregisters whom it takes the peer for |
| `ClusterManager.RootStore.MongoClusterAdd` | root-service-manager/service-manager/interfaces/mongodb_requests.py:618-632 | a cluster that is known by its id keeps place and interests and gets the new address; another is appended |
| `ClusterManager.RootStore.MongoGetClusterByIp` | root-service-manager/service-manager/interfaces/mongodb_requests.py:648-650 | the first cluster with the address |
| `ClusterManager.RootStore.GetServiceInstances` | root-service-manager/service-manager/operations/instances_management.py:55-78 | refuses an unknown caller; else answers and registers the interest of the cluster that the caller is taken for |
| `ClusterManager.RootStore.DeregisterInterest` | root-service-manager/service-manager/network/routes_interests.py:6-15 | removes the interest of the cluster that the peer is taken for; 404 for an unknown peer |
| `ClusterManager.RootStore.RegisterClusterJobInterest` | root-service-manager/service-manager/interfaces/mongodb_requests.py:662-674 | adds a job to a cluster's list once |
| `ClusterManager.RootStore.RemoveClusterJobInterest` | root-service-manager/service-manager/interfaces/mongodb_requests.py:677-687 | removes one occurrence of a job from a cluster's list |

## Left out

- TUN and UDP reading and writing, connection buffers, decoding, checksums and defragmentation: input and output, and libraries that are not part of this model.
- netlink, iptables, sysctl and veth names: a deployment sees only which of its calls succeed.
- The MQTT broker, HTTP, Flask, JWT, the command line, logging, configuration files and notification retries.
- Event channels: a newer timer's channel can be closed by an older timer, so nothing is claimed about event delivery in that window; the last teardown step of an old timer may also delete table entries that a newer registration has loaded.
- Data races on Go fields without a lock, such as the address caches.
- The parsing of addresses in SLAs: a chosen address arrives as the numbers it stands for.
- `format_instance_response`, netinfo formatting and the unikernel path: they rearrange fields for callers outside this model and change no state that it describes.
- The mapping between dots and underscores in job names of HTTP requests.
- Equality of cluster and root instance lists over runs: false, see `NoticeBringsInstances`.
- FindByIp: which job is found when several have one address is left open, in `ClusterSpec` and in `ServiceAddresses`.
- Deployment notices with a number below -1, which are refused, are no steps; the number means nothing to the others.
- FlowStaysCached: the clock of later operations is taken not to run backwards past the addition.
- SharedNodeTransparency: for the first exchange of a pair of ports that the cache does not hold yet.
