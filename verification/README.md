# Verified model of the proxy core's control logic

A Dafny model of the parts of this repository where state, order and arithmetic decide: the
checks on configuration graphs, the UDP session protocol, the choice among a group's proxies,
the DNS caches and resolvers, and a few codecs and reconciliations. Each module is one
component and proves what it promises for all inputs, all orders of Go's map walks, and all
interleavings.

`dafny verify dfyconfig.toml` checks the whole project.

## Modules

| module | component |
|---|---|
| `Prelude`, `Graphs` | shared vocabulary: options, distinct sequences, pigeonhole; walks, cycles, closed sets of a finite graph |
| `GroupSort` | the in-place topological sort of proxy groups and the report of loops |
| `RuleMatch` | from sorted groups to a registry, and the rule scan with its walk through nested groups |
| `Synthetic` | the groups generated for a plain subscription, and their passage through the sort |
| `SubRules`, `Hosts` | the cycle checks on sub-rules and on host aliases |
| `HostSearch` | the search in the accepted hosts, which relies on the second check |
| `DomainTrie`, `HostTrie` | the trie of domains with its wildcards; the check and the search over it |
| `UdpSession` | packets, senders, dial and reader goroutines as a state machine over their steps |
| `PacketNat` | the destination mapping of one sender |
| `GroupProxies`, `Fallback` | the cached list of a group's proxies; the fallback group's choice |
| `DnsTtl`, `Dhcp`, `SystemDns` | TTLs in the cache, the single-flight DHCP client, the ageing of system nameservers |
| `Vless`, `Address`, `Socks` | packet framing; addresses and their SOCKS form |
| `TunnelPatch` | the diff of tunnel listeners |

Code that changes fields or arrays in place is a class or a method over an array, proved
against a function of the old state; the laws are lemmas about those functions. Where Go
walks a map the methods pick the next key arbitrarily (`:|`). Goroutines are state machines
whose runs take enabled steps in any order.

## Where the code does less than it seems to

Each of these is a theorem with an exact condition or a concrete input, not a remark.

- Group loops: a comment in `core/Clash.Meta/config/utils.go:123` says that only the loops
  remain to be reported; groups between two loops remain too (`GroupSort.LoopReport`,
  `GroupSort.GroupBetweenLoopsIsReported`), and `GroupSort.ReportNamesLoops` says exactly when not.
- Generated subscriptions: the groups list trimmed names while the proxies keep their raw ones,
  so a name with blanks around it is not found (`Synthetic.GenerateAndParse`,
  `Synthetic.PaddedNameFails`).
- Host aliases: the trie lowers names and has wildcards, the check compares names as they are
  spelled. A circle is let in when the alias that leads back to the host entered last is its
  own, or spells it in another case, or meets it as a wildcard; then the search for it never
  ends (`HostTrie.AcceptedSearchesEndIff`, `HostSearch.LoneSelfAlias`,
  `HostSearch.SpelledOtherwise`, `HostTrie.WildcardCircle`), nor does the check itself for a
  host that leads into such a circle (`Hosts.PromiseIff`, `Hosts.SelfAliasHangs`).
- UDP: a packet can stay in the channel of a deleted session, at most one per session
  (`UdpSession.StrandedIff`, `UdpSession.StrandedForEver`, `UdpSession.StrandingHappens`).
- Fallback group: right after its selection dies it may hand out a dead member although another
  lives (`Fallback.DeadChoiceIff`); a selection nobody bears sticks (`Fallback.UnknownSelectionSticks`).
- A group without providers gets an empty list, since no versions equal no versions
  (`GroupProxies.GroupBase.GetProxies`).
- DNS: for server failures the TTL subtraction wraps (`DnsTtl.ServerFailureInTimeIff`).
- DHCP: an interface error outlives the interface's absence until the next completed lookup
  (`Dhcp.AnswerWithheldIff`, `Dhcp.InterfaceErrorSticks`); an address that changes during a
  lookup is not looked up while the new lease lasts (`Dhcp.AddressChangeInFlight`,
  `Dhcp.AddressChangeIsMissed`).
- System nameservers: a comment in `core/Clash.Meta/dns/system.go:17` puts the ageing at 60
  minutes; the code counts reads, and without a usable server every call reads. A dropped
  server is sure to have been kept for the hour exactly if, from its last listing on, 12 of
  the 14 reads before the one that drops it found a usable one
  (`SystemDns.KeptAnHourIff`, `SystemDns.FourteenCallsEmptyTheTable`).
- VLESS: a half header loses the framing (`Vless.DeliversIff`).
- SOCKS: hosts of 253 bytes and more, by byte-typed indices (`Socks.RoundTripIff`).
- Tunnel listeners: a slash in a name panics at the next patch (`TunnelPatch.PanicsIff`,
  `TunnelPatch.SlashRun`), an element opened twice by one request loses a listener
  (`TunnelPatch.RunCoveredIff`, `TunnelPatch.RepetitionRun`), and a requested element that runs
  keeps its listener exactly under the condition of `TunnelPatch.ListenerFate`: one of an
  unknown network only if the same element with network udp is requested too, and not when
  its own opening succeeds (`TunnelPatch.OtherNetworkIsReopened`, `TunnelPatch.OtherNetworkRun`).

## Assumptions

- The option decoder, regular expressions, case folding, `strings.TrimSpace`, rule matching,
  resolution, health checks and the outcome of opening, dialling, reading and writing are
  parameters or arbitrary choices.
- `nat.Table` does `GetOrCreate` and `Delete` in one step each; a channel operation is one step.
- In `Hosts` and `HostSearch` the trie is a map keyed by lowered names; `HostTrie` has the trie
  itself. Lowering, splitting and trimming are arbitrary functions of names; trimming leaves the
  names made up for generated groups alone, as trimming blanks does (`Synthetic.MadeUpIsTrimmed`).
- A provider's list is a function of its version and does not change during one `GetProxies`.
- A call of the system resolver reads the clock once. Clocks do not go back; between the two
  clock readings of a DNS cache hit less than a second passes beyond the expiry.
- Strings are sequences of characters; host names of SOCKS addresses are sequences of bytes.

## Model

| member | source | states |
|---|---|---|
| `GroupSort.ProxyGroupsDagSort` | core/Clash.Meta/config/utils.go:23-150 | for every group list and every order of the two map walks: an undecodable entry or a repeated name is the error, and then nothing is moved; otherwise the sort succeeds if and only if the reference graph has no cycle; on success the array is a permutation of the input in which every group comes after all groups it lists; on a loop the names reported are distinct, at least one, and exactly the largest set whose members all list and are listed by members |
| `GroupSort.LoopReport` | core/Clash.Meta/config/utils.go:103-149 | what that set means: a name is reported if and only if it lies on a walk from a cycle to a cycle |
| `GroupSort.LoopsAreReported` | core/Clash.Meta/config/utils.go:123-149 | every group of every loop is reported |
| `GroupSort.ReportNamesLoops` | core/Clash.Meta/config/utils.go:123-149 | the report names exactly the groups on loops if and only if no group on a loop lists a group that is on no loop itself and leads to a loop again |
| `GroupSort.LoopsApartAreNamed` | core/Clash.Meta/config/utils.go:123-149 | in particular where no loop leads to another one |
| `GroupSort.GroupBetweenLoopsIsReported` | core/Clash.Meta/config/utils.go:123-149 | otherwise it may name a group that is on no loop: three groups, one of them between two loops |
| `GroupSort.Build` | core/Clash.Meta/config/utils.go:39-64 | step 1.1 ends with a node for every name and with `indegree` equal to the number of times a name is listed, repetitions counted, or with the first entry that cannot be taken |
| `GroupSort.Release` | core/Clash.Meta/config/utils.go:87-93 | taking back a popped group's references lowers each counter by exactly its occurrences, and queues each name once, when its counter reaches 0; no name looked up is missing |
| `GroupSort.PopOne` | core/Clash.Meta/config/utils.go:76-96 | one round keeps the invariant: `indegree` counts the references from groups not popped yet, the back of the array holds the popped groups in order, the front is untouched |
| `GroupSort.TopoSort` | core/Clash.Meta/config/utils.go:66-96 | what is left in the graph when the queue runs empty, and how far the array has been overwritten |
| `GroupSort.PopKeepsFree` | core/Clash.Meta/config/utils.go:87-95 | a popped name is listed by nobody left, and lists only names still in the graph and not itself |
| `GroupSort.PopKeepsPredClosed` | core/Clash.Meta/config/utils.go:76-96 | popping never removes a name of a set whose members are all listed by members |
| `GroupSort.PlaceGroup` | core/Clash.Meta/config/utils.go:80-81 | writing a popped group in front of those popped before keeps them a permutation of what is gone, every group behind the groups it lists |
| `GroupSort.StuckIsPredClosed` | core/Clash.Meta/config/utils.go:99-101 | when nothing can be popped, every name left is listed by a name left |
| `GroupSort.Relink` | core/Clash.Meta/config/utils.go:105-122 | step 2.1 makes `outdegree` the number of references of a node and `from` the listing groups with repetitions |
| `GroupSort.PeelOne` | core/Clash.Meta/config/utils.go:132-142 | one round of the peeling keeps `outdegree` equal to the references into what is left; every name in `from` is still in the graph, also when references repeat |
| `GroupSort.PeelKeepsBiClosed` | core/Clash.Meta/config/utils.go:132-142 | peeling never removes a name of a set whose members all list and are listed by members |
| `GroupSort.PeeledIsBiClosed` | core/Clash.Meta/config/utils.go:132-149 | what the peeling leaves is such a set |
| `GroupSort.LocateLoop` | core/Clash.Meta/config/utils.go:103-149 | the reported names, in whatever order the map is walked, are exactly what the peeling leaves |
| `Graphs.GreatestBiClosedIsBetweenCycles` | core/Clash.Meta/config/utils.go:123-149 | on any finite graph the largest set closed in both directions is the set of names on a walk from a cycle to a cycle |
| `Graphs.BetweenIsOnCycleIff` | core/Clash.Meta/config/utils.go:123-149 | on any finite graph everything on a walk from cycle to cycle is on a cycle if and only if no edge leaves a cycle for a node off every cycle that leads to a cycle |
| `Graphs.AcyclicIffNoPredClosed` | core/Clash.Meta/config/utils.go:98-101 | a finite graph has no cycle if and only if no non-empty set has all its members listed by members |
| `Synthetic.UniqueSyntheticGroupName` | core/config_subscription_compat.go:143-154 | the unbounded loop ends for every finite set of used names, with an unused name: the base, or the base with the least free number from 2 on |
| `Synthetic.UsedCandidates` | core/config_subscription_compat.go:148-153 | the pigeonhole measure: as many candidates as have been refused are distinct used names |
| `Synthetic.CandidateInjective` | core/config_subscription_compat.go:149 | different numbers give different candidates |
| `Synthetic.DecimalReadsBack` | core/config_subscription_compat.go:149 | the suffix is the number in decimal: read back it is that number, without a leading zero |
| `Synthetic.DecimalInjective` | core/config_subscription_compat.go:149 | decimal notation is injective |
| `Synthetic.ConvertSubscription` | core/config_subscription_compat.go:62-124 | the generated configuration: a selector that lists the latency-tested group if there are several names, DIRECT, and every trimmed name; its own name and that group's are the base or the base with the least free number; no reference loop |
| `Synthetic.ProxyNamesAre` | core/config_subscription_compat.go:75-88 | the names listed are those left after trimming, in order and as often as they come |
| `Synthetic.SortGenerated` | core/config_subscription_compat.go:105-119 | so the group sort accepts every generated configuration |
| `Synthetic.GenerateAndParse` | core/Clash.Meta/config/config.go:843-916 | generation, sort and building composed: the sort never refuses, and with the proxies registered under their raw names the configuration parses if and only if every trimmed name is the name of a proxy |
| `Synthetic.PaddedNameFails` | core/config_subscription_compat.go:62-124 | one proxy whose name ends in a blank: generated and sorted, and not built |
| `Synthetic.MadeUpIsTrimmed` | core/config_subscription_compat.go:143-154 | trimming blanks leaves every made-up name alone |
| `SubRules.VerifySubRule` | core/Clash.Meta/config/config.go:998-1006 | whatever the map order, there is no error if and only if every sub-rule reference resolves and the reference graph has no cycle; an error names a reference that does not resolve or a real path whose last name repeats |
| `SubRules.VerifyCircularReferences` | core/Clash.Meta/config/config.go:1008-1035 | the search ends, since its path holds distinct names of a finite map, and succeeds if and only if every walk from here resolves without repeating a name of the path |
| `SubRules.AllCleanIffAcyclic` | core/Clash.Meta/config/config.go:998-1035 | all searches succeed if and only if the whole graph is resolved and acyclic |
| `SubRules.CircularErrorShowsCycle` | core/Clash.Meta/config/config.go:1024-1027 | a circular error contains a cycle of references |
| `Hosts.FollowAliases` | core/Clash.Meta/config/config.go:1129-1137 | the alias walk, decided for every table: stops clear, meets the name being inserted, or never ends; pigeonhole over the table bounds the walks that end |
| `Hosts.LongWalkIsEndless` | core/Clash.Meta/config/config.go:1131-1136 | a walk longer than the table never ends |
| `Hosts.ParseHosts` | core/Clash.Meta/config/config.go:1108-1140 | the loop over the hosts ends in the outcome that the specification of one order says |
| `Hosts.OutcomeTells` | core/Clash.Meta/config/config.go:1109-1139 | for every order of the map walk: acceptance means that the tree holds all hosts and that every circle of aliases has an unseen host, one to which only itself or an alias spelled differently leads back; a refusal means that there is a circle; a hang means that a host leads into a circle with an unseen host |
| `Hosts.AcceptedTreeIs` | core/Clash.Meta/config/config.go:1098-1144 | an accepted tree holds every host with its value, "localhost" with its address unless a host replaces it, and nothing else |
| `Hosts.ExactWithoutSelfAlias` | core/Clash.Meta/config/config.go:1129-1137 | where aliases spell the hosts as they are entered and none is aliased to itself, no order hangs and exactly the circles are refused |
| `Hosts.PromiseIff` | core/Clash.Meta/config/config.go:1109-1139 | the exact condition under which this holds in every order: no host leads into a circle with an unseen host, and there is no unseen host unless another circle is always seen |
| `Hosts.LeadInOrder` | core/Clash.Meta/config/config.go:1129-1137 | a host that leads into a circle with an unseen host: the order, for every such configuration, in which the walk never ends |
| `Hosts.SelfAliasHangs` | core/Clash.Meta/config/config.go:1129-1137 | the smallest such configuration: a host aliased to itself, then one aliased to it |
| `Hosts.UnseenLast` | core/Clash.Meta/config/config.go:1109-1139 | if every circle has an unseen host some order refuses none |
| `Hosts.LetThroughIsUnseen` | core/Clash.Meta/config/config.go:1133-1136 | whatever has been entered before: a host let in that closes a circle is unseen |
| `Hosts.UnseenIsNotSeen` | core/Clash.Meta/config/config.go:1133-1136 | and an unseen host never makes the check report a circle |
| `Hosts.SelfAliasIsUnseen` | core/Clash.Meta/config/config.go:1133-1136 | a host aliased to itself is unseen |
| `Hosts.AcceptedMeansValid` | core/Clash.Meta/config/config.go:1125-1128 | a value that is no host value is never accepted |
| `HostSearch.Search` | core/Clash.Meta/component/resolver/host.go:33-61 | the search made at every lookup, along a chain of aliases that stops: the addresses the chain leads to, or the last alias as a value of the wrong kind |
| `HostSearch.SearchEndsIff` | core/Clash.Meta/component/resolver/host.go:36-46 | in any table the unbounded loop ends if and only if the aliases from the name lead into no circle |
| `HostSearch.EverySearchEndsIff` | core/Clash.Meta/component/resolver/host.go:36-46 | all searches end if and only if the hosts have no circle of aliases |
| `HostSearch.AcceptedSearchesEndIff` | core/Clash.Meta/config/config.go:1098-1144 | what the check is for, on hosts without wildcards that are different names once lowered: after it has accepted them, in whatever order, every search ends if and only if there is no unseen host |
| `HostSearch.SpelledSearchesEnd` | core/Clash.Meta/config/config.go:1098-1144 | so if aliases spell the hosts as they are entered and none is aliased to itself, every search ends |
| `HostSearch.LoneSelfAlias` | core/Clash.Meta/component/resolver/host.go:36-46 | a host aliased to itself is accepted, and the search for it never ends |
| `HostSearch.SpelledOtherwise` | core/Clash.Meta/component/trie/domain.go:26-58 | a circle of two in which one host is spelled in another case: accepted in one order, without a self-alias, and the search never ends |
| `HostSearch.TwoSpellingsOneEntry` | core/Clash.Meta/component/trie/domain.go:26-58 | two spellings of one name among the hosts: the order decides between acceptance and refusal |
| `DomainTrie.SearchIff` | core/Clash.Meta/component/trie/domain.go:112-130 | for every trie: the search that goes down a branch and comes back finds something if and only if a pattern that was entered matches the name |
| `DomainTrie.SearchIsFind` | core/Clash.Meta/component/trie/domain.go:112-130 | and what it finds is the value of the pattern that the set of patterns alone determines |
| `DomainTrie.FindsBest` | core/Clash.Meta/component/trie/domain.go:112-130 | of all patterns that match it finds the best: the last label that differs decides, the name's own label before a wildcard and that before the dot wildcard |
| `DomainTrie.ExactFirst` | core/Clash.Meta/component/trie/domain.go:117-121 | a pattern that is the name itself is found before any other |
| `DomainTrie.FindStays` | core/Clash.Meta/component/trie/domain.go:112-130 | a pattern found among many is found among any of them that still have it |
| `DomainTrie.InsertDomainIsPut` | core/Clash.Meta/component/trie/domain.go:64-90 | an insertion writes the patterns of its domain, two for a "+", and leaves the others |
| `DomainTrie.DomainCovers` | core/Clash.Meta/component/trie/domain.go:58-79 | a domain "+.x" covers x and everything under it, any other domain what its pattern matches |
| `HostTrie.ParseHosts` | core/Clash.Meta/config/config.go:1098-1144 | the loop over the hosts on the trie itself, with wildcards, refused names and overwritten entries |
| `HostTrie.NotAcceptedFor` | core/Clash.Meta/config/config.go:1125-1137 | a refusal or hang is that of the first host not let in, for its value or its walk |
| `HostTrie.SearchIsLookup` | core/Clash.Meta/component/trie/domain.go:97-110 | searching the trie by name is looking up the entry that the name has in the table of what was entered |
| `HostTrie.AcceptedSearchesEndIff` | core/Clash.Meta/config/config.go:1098-1144 | what the check is for, for any hosts: once it has accepted them in an order, every search ends if and only if no circle of aliases has a seam, that is a link to the entry of the host entered last of the circle that is that host's own or does not spell it |
| `HostTrie.CircleHasSeam` | core/Clash.Meta/config/config.go:1129-1137 | every circle that has been let in has a seam: the walk that the check made from the last host followed the circle, since entries made later took none of its names away |
| `HostTrie.WildcardCircle` | core/Clash.Meta/config/config.go:1129-1139 | a wildcard aliased to a name under it: accepted, and the search for any name under it never ends |
| `HostTrie.PlainIsExact` | core/Clash.Meta/config/config.go:1109-1139 | without wildcards and refused names the check over the trie has the outcome of the check over the table of Hosts, in every order |
| `RuleMatch.BuildGroups` | core/Clash.Meta/config/config.go:904-916 | building succeeds if and only if at each position all members are registered and the name is free; the registry then has a rank that falls from every group to its members |
| `RuleMatch.SortedBuilds` | core/Clash.Meta/config/config.go:880-916 | after a successful sort building can fail only for a taken name or a member that exists nowhere, never because of the order |
| `RuleMatch.ParseGroups` | core/Clash.Meta/config/config.go:866-916 | sort and build together: the registry exists if and only if the configuration is well formed, acyclic, and its names fit; it holds the plain proxies as they were and every group with the members it lists; a failure names the true misfit |
| `RuleMatch.ReorderedSaysTheSame` | core/Clash.Meta/config/config.go:880-916 | sorting changes nothing that the configuration says |
| `RuleMatch.WalkRankFalls` | core/Clash.Meta/tunnel/tunnel.go:657-662 | each step of the walk through nested groups lowers the rank, whatever each group picks among its members |
| `RuleMatch.WalkEnds` | core/Clash.Meta/tunnel/tunnel.go:657-662 | so a walk has at most rank + 2 links |
| `RuleMatch.WalkMeetsPass` | core/Clash.Meta/tunnel/tunnel.go:655-662 | the unbounded loop ends, and tells whether there is a way through the groups, each going on to what it gives, that ends at a PASS |
| `RuleMatch.MeetsPassIff` | core/Clash.Meta/tunnel/tunnel.go:655-662 | a plain proxy meets a PASS if and only if it is one, a group if and only if it gives a PASS from outside or a member that meets one |
| `RuleMatch.Match` | core/Clash.Meta/tunnel/tunnel.go:621-678 | the rule chosen names an existing adapter that meets no PASS and carries the network; every rule before it does not match, names no adapter, meets a PASS or does not carry UDP; at most one DNS lookup, made if and only if a rule looked at needs an address that is not there |
| `RuleMatch.MetadataTells` | core/Clash.Meta/tunnel/tunnel.go:631-652 | what the rules see: the hosts file's address for all of them; otherwise what DNS says from the first rule on that needs an address, never before; host and network unchanged |
| `UdpSession.InvAlongRun` | core/Clash.Meta/tunnel/tunnel.go:96-110 | the invariant of all the properties below holds in every state of every interleaving |
| `UdpSession.InvKept` | core/Clash.Meta/tunnel/tunnel.go:378-463 | every step of every goroutine keeps it |
| `UdpSession.OneTeardown` | core/Clash.Meta/tunnel/tunnel.go:453-461 | each session is torn down by the dial failure or by the reader, never by both; every deletion removes the session that asked for it, no session asks twice, and a session is in the table exactly until its own deletion |
| `UdpSession.EveryPacketInOnePlace` | core/Clash.Meta/tunnel/tunnel.go:96-110 | each packet received is in exactly one place: worker queue, being handled, sender queue, being processed, dropped; it is dropped at most once; queues hold at most 64 and 128 |
| `UdpSession.DroppedForCause` | core/Clash.Meta/tunnel/connection.go:104-155 | over any run every drop has its cause at the step where it happened: the queue of the worker for the key held 64, a rejection, a closed sender, an open sender's channel that held 128, the teardown of a closed session, or the end of processing |
| `UdpSession.OpenSenderAccepts` | core/Clash.Meta/tunnel/connection.go:129-145 | conversely an open sender with fewer than 128 packets takes the packet, and nothing else can happen to it |
| `UdpSession.ReceiveGoesTo` | core/Clash.Meta/tunnel/tunnel.go:96-110 | a received packet goes to the end of the queue of worker hash modulo the number of workers, unless that holds 64 |
| `UdpSession.NobodyIsStuck` | core/Clash.Meta/tunnel/tunnel.go:96-110 | in every reachable state each worker, dialler, processor and reader that is neither done nor waiting for packets can go on |
| `UdpSession.EitherWay` | core/Clash.Meta/tunnel/tunnel.go:378-470 | a checked packet is rejected or gets the session of its key, a new one if none is registered; a dial succeeds or fails |
| `UdpSession.DropsOnlyReceived` | core/Clash.Meta/tunnel/connection.go:118-145 | no packet is invented |
| `UdpSession.ProcessedInOrder` | core/Clash.Meta/tunnel/connection.go:104-116 | the packets that a session takes are a subsequence, in order, of those accepted for its key |
| `UdpSession.SessionsSplitTheTraffic` | core/Clash.Meta/tunnel/tunnel.go:404-463 | of two sessions of one key the earlier is deleted and took only packets received before all those of the later |
| `UdpSession.AtMostOneStranded` | core/Clash.Meta/tunnel/connection.go:118-150 | at any moment the channel of a deleted session holds at most one packet |
| `UdpSession.StrandedIff` | core/Clash.Meta/tunnel/connection.go:118-150 | over any run: after its channel has been drained a session has a packet in it if and only if one was put since and not taken since |
| `UdpSession.StrandedForEver` | core/Clash.Meta/tunnel/connection.go:134-150 | and once the goroutine that takes packets has left, that packet stays in every later state of every run |
| `UdpSession.StrandingHappens` | core/Clash.Meta/tunnel/connection.go:129-150 | and a run in which it keeps one: Send looks at the open context, the teardown drains, then Send puts |
| `UdpSession.PopulationKept` | core/Clash.Meta/tunnel/connection.go:168-174 | the table and the undeleted sessions stay the same thing, in every step |
| `UdpSession.ConservedKept` | core/Clash.Meta/tunnel/tunnel.go:96-110 | every step conserves the places of every packet |
| `UdpSession.ActionKinds` | core/Clash.Meta/tunnel/tunnel.go:404-461 | only the lookup creates a session, under a key without one; only the two deletions remove one |
| `PacketNat.PacketSender.AddMapping` | core/Clash.Meta/tunnel/connection.go:42-54 | the maps stay what the history of mappings makes of them: for each destination the first valid target, for each target the first valid origin |
| `PacketNat.PacketSender.RestoreReadFrom` | core/Clash.Meta/tunnel/connection.go:56-63 | the destination of the earliest mapping to that address with a valid origin, else the address itself |
| `PacketNat.PacketSender.ProcessPacket` | core/Clash.Meta/tunnel/connection.go:65-102 | a mapped destination goes to its mapped address; an unmapped one is resolved, mapped and sent, or dropped without a trace |
| `PacketNat.FirstTargetExtends` | core/Clash.Meta/tunnel/connection.go:48-50 | no later mapping changes a valid entry |
| `PacketNat.FirstOriginExtends` | core/Clash.Meta/tunnel/connection.go:51-53 | the same for the way back |
| `PacketNat.FirstTargetIsEarliest` | core/Clash.Meta/tunnel/connection.go:42-54 | the entry is the earliest mapping of that destination with a valid target |
| `PacketNat.FirstOriginIsEarliest` | core/Clash.Meta/tunnel/connection.go:56-63 | the restored address is the earliest valid origin among the mappings to that target |
| `PacketNat.RestoredWasMapped` | core/Clash.Meta/tunnel/connection.go:59-61 | a reply is never shown under an address that was not mapped to its sender |
| `PacketNat.OneDestinationOneAddress` | core/Clash.Meta/tunnel/connection.go:69-101 | over a whole run all packets for one destination go to the mapped address, exactly but for one that was taken up before the destination was mapped, where that address wraps an IPv4 one; there is one such packet at most, the first |
| `Address.UnmapIs` | core/Clash.Meta/tunnel/connection.go:90-101 | unwrapping gives the last four octets, for an IPv6 address that begins with ten zeros and two octets of ones, and changes no other |
| `GroupProxies.FilterMajor` | core/Clash.Meta/adapter/outboundgroup/groupbase.go:133-173 | filter by filter, each name once: the first entries of the matched names, stably ordered by the first filter that matches them |
| `GroupProxies.DedupeNames` | core/Clash.Meta/adapter/outboundgroup/groupbase.go:133-173 | the filter passes leave exactly the names that a filter matches, or all names where the unmatched are kept |
| `GroupProxies.DedupeFirsts` | core/Clash.Meta/adapter/outboundgroup/groupbase.go:133-173 | of each name the first entry, once |
| `GroupProxies.DedupeOrder` | core/Clash.Meta/adapter/outboundgroup/groupbase.go:133-173 | of two names the one an earlier filter matches comes first, otherwise the one that comes first in the list |
| `GroupProxies.Select` | core/Clash.Meta/adapter/outboundgroup/groupbase.go:121-175 | the list before exclusions: with several providers and several filters the ranked first occurrences of everything admitted, unmatched names last; otherwise the providers' contributions one after the other |
| `GroupProxies.SelectedNames` | core/Clash.Meta/adapter/outboundgroup/groupbase.go:126-175 | with filters a name is there if and only if a compatible provider has it, or another one has it and a filter matches |
| `GroupProxies.SeveralAreRanked` | core/Clash.Meta/adapter/outboundgroup/groupbase.go:153-175 | with two providers and two filters or more no name comes twice and filters rank across providers |
| `GroupProxies.OneProvider` | core/Clash.Meta/adapter/outboundgroup/groupbase.go:121-149 | a single provider's list is left as it is if it is compatible or there is no filter, and filtered otherwise |
| `GroupProxies.UnfilteredIsAll` | core/Clash.Meta/adapter/outboundgroup/groupbase.go:122-125 | without filters the providers' lists stand one after the other |
| `GroupProxies.DedupeIsUnique` | core/Clash.Meta/adapter/outboundgroup/groupbase.go:153-175 | that order has one result |
| `GroupProxies.ContributionsStandForAdmitted` | core/Clash.Meta/adapter/outboundgroup/groupbase.go:126-175 | deduplicating each provider first and the whole again loses nothing: the two stages give what one stage over all admitted entries gives |
| `GroupProxies.MatchedOrder` | core/Clash.Meta/adapter/outboundgroup/groupbase.go:133-146 | filtering a list keeps the order of first occurrences |
| `GroupProxies.Exclude` | core/Clash.Meta/adapter/outboundgroup/groupbase.go:177-205 | the two exclusion loops leave the subsequence of entries that no excluding pattern and no excluded type hits |
| `GroupProxies.AnswerExcludes` | core/Clash.Meta/adapter/outboundgroup/groupbase.go:177-209 | an answer has exactly the selected entries that are not excluded, in order, or the fallback alone if that leaves none |
| `GroupProxies.GroupBase.GetProxies` | core/Clash.Meta/adapter/outboundgroup/groupbase.go:103-216 | with a provider, the answer, cached or fresh, is the one the current versions determine, and it is not empty; a group without providers gets an empty list |
| `GroupProxies.AnswerIsUnique` | core/Clash.Meta/adapter/outboundgroup/groupbase.go:116-119 | versions determine one answer, so a cache hit equals a recomputation |
| `Fallback.Group.FindAliveProxy` | core/Clash.Meta/adapter/outboundgroup/fallback.go:104-123 | one loop that searches for the selection and, from where it is found dead, for a live member |
| `Fallback.ChoiceTells` | core/Clash.Meta/adapter/outboundgroup/fallback.go:104-123 | what is chosen and what stays selected, case by case: the first live member, the live bearer of the selection, or the first live one behind a dead bearer, and the very first member for want of one |
| `Fallback.DeadChoiceIff` | core/Clash.Meta/adapter/outboundgroup/fallback.go:104-123 | with a live member in the group the choice is dead exactly if there is a selection, no member from the first bearer of its name on is alive, and the first member is dead too |
| `Fallback.Overlooked` | core/Clash.Meta/adapter/outboundgroup/fallback.go:104-123 | three members of which the second is alive and the dead first is chosen |
| `Fallback.NextCallRecovers` | core/Clash.Meta/adapter/outboundgroup/fallback.go:116 | after that the selection is gone and the next call takes a live member |
| `Fallback.OnlyFirstCallIsDead` | core/Clash.Meta/adapter/outboundgroup/fallback.go:104-123 | so over any run of calls on an unchanged group only the first can be dead for no need |
| `Fallback.UnknownSelectionSticks` | core/Clash.Meta/adapter/outboundgroup/fallback.go:104-123 | a selection that no member bears is never dropped: over any run of calls the first member is chosen, dead or alive |
| `Fallback.SelectionIsKept` | core/Clash.Meta/adapter/outboundgroup/fallback.go:104-123 | over any run of calls on a changing group, a selection survives if and only if no call found the first bearer of its name dead; until then every call that finds a bearer chooses it, and once dropped it is never taken up again |
| `Fallback.Group.Set` | core/Clash.Meta/adapter/outboundgroup/fallback.go:125-146 | selecting succeeds if and only if a member has the name, and changes the selection only then |
| `DnsTtl.ServedWithinStored` | core/Clash.Meta/dns/resolver.go:171-184 | for every cached message but a server failure, at every time: each TTL served is between 1 and the stored one and at most what the seconds since storing, rounded up, leave of it (or 1) |
| `DnsTtl.ServedExactly` | core/Clash.Meta/dns/resolver.go:171-184 | the TTL served, at every time for every record: 1 past the expiry; before it the least of a section is the seconds left of the lifetime and the others keep their distance, none below 1 |
| `DnsTtl.TtlWithinStock` | core/Clash.Meta/dns/util.go:41-43 | while no more seconds are left than the least TTL, neither subtraction wraps and a TTL keeps its distance above the least |
| `DnsTtl.TtlBeyondStock` | core/Clash.Meta/dns/util.go:41-43 | with more seconds left the subtraction wraps, and the TTL is served unchanged unless it wraps a second time |
| `DnsTtl.DifferencesSurvive` | core/Clash.Meta/dns/util.go:37-45 | differences within a section survive as long as a second is left |
| `DnsTtl.ServedLeast` | core/Clash.Meta/dns/util.go:82-86 | the least TTL served in a section is the seconds left, or 1 |
| `DnsTtl.LifetimeIsLeast` | core/Clash.Meta/dns/util.go:54-61 | a message lives no longer than any of its records |
| `DnsTtl.LifetimeIs` | core/Clash.Meta/dns/util.go:54-61 | a message lives as long as its shortest-lived record, not at all without records, and five seconds if it is a server failure |
| `DnsTtl.RemainingIsWhatIsLeft` | core/Clash.Meta/dns/resolver.go:182 | the seconds left are the lifetime less the seconds since storing, rounded up |
| `DnsTtl.ServerFailureInTimeIff` | core/Clash.Meta/dns/util.go:55-58 | a server failure is stored for five seconds whatever its records say; its section keeps the bound above at every moment exactly if all its TTLs are at least 5 or all at most 1 |
| `DnsTtl.ServerFailureWraps` | core/Clash.Meta/dns/util.go:41-58 | a three-second record in a server failure still claims three seconds after one |
| `DnsTtl.UpdateTtl` | core/Clash.Meta/dns/util.go:37-45 | the records in place become the aged section |
| `DnsTtl.MinimalTtl` | core/Clash.Meta/dns/util.go:27-35 | the least TTL of a section, 0 for an empty one |
| `DnsTtl.WithoutOptKeeps` | core/Clash.Meta/dns/resolver.go:208-214 | every record but the OPT ones stays, in order and as often as it was there |
| `DnsTtl.Cache.Finish` | core/Clash.Meta/dns/resolver.go:208-216 | with caching the additional records lose exactly the OPT ones, and the message without them is what is cached and whose lifetime counts; ACME challenges and zero lifetimes are not cached |
| `DnsTtl.Cache.PutMsgToCache` | core/Clash.Meta/dns/util.go:47-66 | what is stored, and until when |
| `DnsTtl.Cache.Hit` | core/Clash.Meta/dns/resolver.go:171-184 | a hit serves a changed copy and leaves the stored message alone; past the expiry every TTL is 1 and a new fetch is due |
| `Dhcp.InvAlongRun` | core/Clash.Meta/dns/dhcp.go:62-125 | the invariant of callers, lookups and fields holds in every interleaving |
| `Dhcp.InvKept` | core/Clash.Meta/dns/dhcp.go:62-125 | every step of callers and lookups keeps it, also between the closing of the channel and the writing of the outcome |
| `Dhcp.SingleFlight` | core/Clash.Meta/dns/dhcp.go:69-100 | at most one lookup is in flight, and `done` is set if and only if one is; after any caller's first critical section there is an answer, an error or a lookup |
| `Dhcp.WaitersWaitOnceForSomething` | core/Clash.Meta/dns/dhcp.go:105-124 | nobody waits on a nil channel; a waiter waits for the lookup in flight or can wake; after one completion it returns at its next look |
| `Dhcp.NobodyIsStuck` | core/Clash.Meta/dns/dhcp.go:62-125 | in every reachable state a lookup in flight can end in any way, a completion can be written, a caller can look and another can come |
| `Dhcp.SettledForGood` | core/Clash.Meta/dns/dhcp.go:95-99 | once there is an answer or an error the client never goes back to initializing |
| `Dhcp.QueriesAreSpaced` | core/Clash.Meta/dns/dhcp.go:128-132 | the interface is never asked twice within 20 seconds, however many callers come |
| `Dhcp.LaunchesIff` | core/Clash.Meta/dns/dhcp.go:127-152 | a caller who asks the interface and finds it up launches a lookup if and only if none is in flight and the lease has run out or is one of another address; then the lease runs for an hour from there |
| `Dhcp.NoLaunchOtherwise` | core/Clash.Meta/dns/dhcp.go:127-140 | who does not find it up launches nothing, and leaves its error if it is down |
| `Dhcp.LeaseRunsOut` | core/Clash.Meta/dns/dhcp.go:144-149 | after a renewal and any run of callers on that lease, the first query an hour later or more launches a lookup unless one is in flight |
| `Dhcp.CallerAsksIff` | core/Clash.Meta/dns/dhcp.go:128-132 | over any run the interface is asked by exactly the callers who come 20 seconds after the last query or later |
| `Dhcp.ErrorIff` | core/Clash.Meta/dns/dhcp.go:65-99 | over any run from any state: there is an error if and only if the last query that found the interface down, or completion of a lookup, was such a query or a failure (or there was neither, and an error before) |
| `Dhcp.ErrorIs` | core/Clash.Meta/dns/dhcp.go:65-99 | and the error is the failure of that query or lookup |
| `Dhcp.ClientsIff` | core/Clash.Meta/dns/dhcp.go:95-99 | the clients are the servers of the last completed lookup if that brought an answer, and none if it failed |
| `Dhcp.ReturnsWhatWasThere` | core/Clash.Meta/dns/dhcp.go:105-124 | over any run, whoever comes back brings the clients and the error of one moment, not both missing |
| `Dhcp.AnswerWithheldIff` | core/Clash.Meta/dns/dhcp.go:63-71 | a client with an answer returns an error exactly if, since the last lookup, which brought that answer, a query has found the interface down |
| `Dhcp.ErrorStaysUntilLookup` | core/Clash.Meta/dns/dhcp.go:65-67 | an error is cleared only by a completed lookup: over any run without one, every caller that comes back brings an error |
| `Dhcp.LeaseLaunchesNothing` | core/Clash.Meta/dns/dhcp.go:144-146 | over any run in which every query finds the same address before the lease ends, no lookup is launched and the lease is not prolonged, however many callers come |
| `Dhcp.InterfaceErrorSticks` | core/Clash.Meta/dns/dhcp.go:65-67 | a run: an answer, a moment without interface, and 40 seconds later an error beside the good answer |
| `Dhcp.AddressChangeInFlight` | core/Clash.Meta/dns/dhcp.go:144-151 | in any reachable state and for any run within the new lease: an address that changes, or a lease that has run out, is looked up if and only if no lookup was in flight when it was seen; otherwise every outcome by then is that of an earlier lookup |
| `Dhcp.AddressChangeIsMissed` | core/Clash.Meta/dns/dhcp.go:144-151 | a run from the start: the address changes during the first lookup, and half an hour later the answer that was asked for under the old address is given out |
| `Dhcp.DhcpClient.Invalidate` | core/Clash.Meta/dns/dhcp.go:127-152 | the cases of the invalidation and the state each leaves |
| `Dhcp.DhcpClient.Enter` | core/Clash.Meta/dns/dhcp.go:63-71 | a caller's first critical section |
| `Dhcp.DhcpClient.Commit` | core/Clash.Meta/dns/dhcp.go:95-99 | a lookup's outcome replaces clients and error |
| `SystemDns.TableTellsHistory` | core/Clash.Meta/dns/system_common.go:20-55 | after any reads a server is in the table if and only if it is not blacklisted and was listed in one of the last 14 reads, and its `disableTimes` is the number of reads since; so it goes at exactly the fourteenth miss in a row |
| `SystemDns.UsableIsLastRead` | core/Clash.Meta/dns/system_common.go:61-66 | the usable servers are exactly those of the last read that are not blacklisted |
| `SystemDns.CallsAreReads` | core/Clash.Meta/dns/system_common.go:15-71 | over any run of calls the table is what the successful reads alone determine |
| `SystemDns.NextReadIff` | core/Clash.Meta/dns/system_common.go:19-58 | after a read the next one waits five minutes if and only if a server was usable; otherwise every call reads |
| `SystemDns.KeptAnHourIff` | core/Clash.Meta/dns/system_common.go:15-58 | the hour that the comment on the constant promises: however calls come, a dropped server was last listed more than an hour before, if and only if at least 12 of the 14 reads from that listing on found a usable server |
| `SystemDns.CallsAreSpaced` | core/Clash.Meta/dns/system_common.go:19-58 | over any run of calls with a clock that does not go back, a read that found a usable server is followed by none for five minutes |
| `SystemDns.DropsIff` | core/Clash.Meta/dns/system_common.go:43-55 | a read drops exactly the servers that were last listed fourteen reads before |
| `SystemDns.EarlyDropsSoon` | core/Clash.Meta/dns/system_common.go:15-58 | with 11 or fewer, the calls that drop it within the hour |
| `SystemDns.FourteenCallsEmptyTheTable` | core/Clash.Meta/dns/system_common.go:19-58 | the extreme case: without any listed server fourteen calls in one instant drop everything |
| `SystemDns.SystemClient.GetDnsClients` | core/Clash.Meta/dns/system_common.go:15-71 | the new state, the clients handed out, each once, and when there is an error |
| `SystemDns.SystemClient.AgeAll` | core/Clash.Meta/dns/system_common.go:43-55 | the walk over the table in any order, with deletions while it runs |
| `Vless.PayloadsArrive` | core/Clash.Meta/adapter/outbound/vless.go:469-551 | for any payloads, buffers and partial reads in which headers arrive whole, the results joined are a beginning of the payloads joined, and all of them once the stream is used up |
| `Vless.DeliversIff` | core/Clash.Meta/adapter/outbound/vless.go:511-551 | a schedule of reads with buffers of two bytes or more delivers a beginning of the payloads, whatever they are, if and only if no read gets half a header |
| `Vless.HalfHeaderShows` | core/Clash.Meta/adapter/outbound/vless.go:530-537 | for every schedule with a half header: the payloads of ones whose delivery has a zero in it |
| `Vless.ResultInOneFrame` | core/Clash.Meta/adapter/outbound/vless.go:511-551 | each result lies within one frame, right behind everything handed over before |
| `Vless.RunDelivers` | core/Clash.Meta/adapter/outbound/vless.go:511-551 | the same from any point of the stream, also in the middle of a frame |
| `Vless.FrameByFrame` | core/Clash.Meta/adapter/outbound/vless.go:511-551 | with buffers that hold the frames and whole headers the i-th read hands over the i-th frame |
| `Vless.ReadOnTakes` | core/Clash.Meta/adapter/outbound/vless.go:515-527 | in the middle of a frame a read takes as much as is granted, fits and is left |
| `Vless.ReadFailsIff` | core/Clash.Meta/adapter/outbound/vless.go:530-545 | a read with a whole header fails if and only if the stream ends before the buffer or the frame is full |
| `Vless.WrittenAreFrames` | core/Clash.Meta/adapter/outbound/vless.go:479-509 | every frame written holds 1 to 8192 bytes, and the frames joined are the payloads joined |
| `Vless.ChunksAre` | core/Clash.Meta/adapter/outbound/vless.go:485-500 | a payload is cut every 8192 bytes |
| `Vless.LengthSurvives` | core/Clash.Meta/adapter/outbound/vless.go:470 | the two length bytes give the length back |
| `Vless.CountIsWhatArrives` | core/Clash.Meta/adapter/outbound/vless.go:485-500 | the count that a failed write returns is exactly the payload that the peer gets out of what went out |
| `Vless.PacketConn.WriteTo` | core/Clash.Meta/adapter/outbound/vless.go:479-509 | the frames of the payload, or those that the stream takes before it fails, and the matching count |
| `Vless.PacketConn.ReadFrom` | core/Clash.Meta/adapter/outbound/vless.go:511-551 | the buffer, the rest of the frame and the stream after one read, short headers included |
| `Vless.HalfHeader` | core/Clash.Meta/adapter/outbound/vless.go:530-537 | a concrete stream: a header of which one byte arrives first |
| `Socks.RoundTripIff` | core/Clash.Meta/adapter/inbound/util.go:13-31 | for every host, address and port: parsing the printed address gives it back if and only if the host has at most 252 bytes (or 253 and a port whose low byte is 3) and no final dot, or the address has no zone and wraps no IPv4 address |
| `Socks.PrinterMeetsStandardIff` | core/Clash.Meta/adapter/outbound/util.go:18-36 | the printer follows section 5 of RFC 1928 exactly for hosts of up to 255 bytes and addresses without a zone |
| `Socks.ParserMeetsStandardIff` | core/Clash.Meta/adapter/inbound/util.go:13-31 | the parser reads a standard address as meant if and only if its byte indices do not wrap |
| `Socks.PanicsIff` | core/Clash.Meta/adapter/inbound/util.go:13-31 | exactly when the parser panics: on an empty or cut address, or one whose byte index wraps |
| `Socks.HostOf254Panics` | core/Clash.Meta/adapter/inbound/util.go:19-20 | a host of 254 or 255 bytes makes the parser panic |
| `Socks.LongHostIsLost` | core/Clash.Meta/adapter/outbound/util.go:25-27 | a host of 256 bytes or more is never read back |
| `TunnelPatch.PatchMeetsRequest` | core/Clash.Meta/listener/listener.go:534-621 | for requests of distinct elements without slashes in their parts and of network tcp or udp: after a patch exactly the requested elements run whose opening did not fail, and those that ran before keep their listener |
| `TunnelPatch.RequestedIff` | core/Clash.Meta/listener/listener.go:571-586 | an element is requested if and only if some tunnel lists its network and has its address, target and proxy |
| `TunnelPatch.RequestedAt` | core/Clash.Meta/listener/listener.go:571-586 | and they stand tunnel after tunnel, in the order of the networks |
| `TunnelPatch.PatchRunsAsked` | core/Clash.Meta/listener/listener.go:534-621 | told by the configuration, where it asks for tcp and udp without slashes, repeated or not: what runs is asked for, what ran and is still asked for keeps its listener, and when all openings succeed all that is asked for runs |
| `TunnelPatch.ListenerFate` | core/Clash.Meta/listener/listener.go:545-620 | for any state, any request and any outcome of the openings: the listener under a running element's key is closed if and only if what the key is read back as is not requested; otherwise it is kept if and only if no opening succeeds under the same key, and lost if one does |
| `TunnelPatch.ProperRequestKeepsIff` | core/Clash.Meta/listener/listener.go:545-620 | a request of elements without slashes, of network tcp or udp, repeated or not, keeps exactly the listeners of the running elements it names |
| `TunnelPatch.LiveOrClosed` | core/Clash.Meta/listener/listener.go:588-620 | over any run of such patches nothing panics and every listener ever opened is in a table or closed, never both |
| `TunnelPatch.PatchCoveredIff` | core/Clash.Meta/listener/listener.go:534-621 | from any state in which no listener is lost, a patch loses one if and only if it opens an element under a key of its table that is taken |
| `TunnelPatch.RunCoveredIff` | core/Clash.Meta/listener/listener.go:534-621 | over any run that does not panic, for any requests: every listener ever opened is live or closed if and only if no patch overwrites one |
| `TunnelPatch.PatchKeepsInv` | core/Clash.Meta/listener/listener.go:534-621 | for any request: no listener is in two places and none in a table has been closed |
| `TunnelPatch.ReadBackIff` | core/Clash.Meta/listener/listener.go:545-568 | a key is read back as its element if and only if no part has a slash |
| `TunnelPatch.PanicsIff` | core/Clash.Meta/listener/listener.go:588-599 | from any state a patch panics if and only if a key with more than two slashes is read back as an element that is neither requested nor running |
| `TunnelPatch.SlashPanicsNextTime` | core/Clash.Meta/listener/listener.go:545-599 | however it got there, a running element with a slash in a part makes the next patch panic, unless what its key reads back as is requested or running |
| `TunnelPatch.SlashRun` | core/Clash.Meta/listener/listener.go:545-599 | from the start: a request of one element with a slash in a part is met when its opening succeeds, and the same request again panics |
| `TunnelPatch.RepetitionLosesListener` | core/Clash.Meta/listener/listener.go:601-620 | from any state that requests of proper elements lead to, a request of such elements loses a listener if and only if one of them is opened twice |
| `TunnelPatch.RepetitionRun` | core/Clash.Meta/listener/listener.go:601-620 | from the start: an element requested twice whose two openings succeed loses its first listener |
| `TunnelPatch.OtherNetworkIsReopened` | core/Clash.Meta/listener/listener.go:588-620 | from any state: the listener of a running element of a network other than tcp and udp is closed if and only if the same element with network udp is not requested, and kept if and only if that is requested and no opening succeeds under the key; an element that is requested itself is never kept when all openings succeed |
| `TunnelPatch.EveryPatchReopens` | core/Clash.Meta/listener/listener.go:588-620 | and so at every patch of every run |
| `TunnelPatch.OtherNetworkRun` | core/Clash.Meta/listener/listener.go:588-620 | from the start: one element of another network, requested twice, and its listener is closed |
| `TunnelPatch.Listeners.PatchTunnel` | core/Clash.Meta/listener/listener.go:534-621 | when the patch panics, the whole state it leaves otherwise, and what then runs in terms of the tunnels |
| `TunnelPatch.Listeners.CloseOne` | core/Clash.Meta/listener/listener.go:590-599 | every closing takes a listener not closed before |

## Left out

- UdpSession: is modelled on values, one datatype of the whole state, because its goroutines interleave; the fields of a sender updated in place are in PacketNat.
- UdpSession: sniffing is off, so the sender is never wrapped by the sniffer; the wrapper is not part of this model.
- UdpSession: nothing is said about fairness, so a packet may wait for ever in a queue of a live session.
- Address: the textual forms of addresses and the comparison of zones beyond equality.
- GroupSort: error texts, and the `topo` field, which the code never reads.
- RuleMatch: the other failures of ParseProxyGroup, the providers, the GLOBAL selector, and how each kind of group picks, except Fallback; picks are arbitrary members, different from rule to rule.
- RuleMatch: the hosts file's address is one given value; the choice among several is random in the code.
- Synthetic: the conversion of share links and the generated rules.
- SubRules: rules other than references to sub-rules.
- Hosts: the expansion of the value "lan"; wildcards of the trie and the names it refuses to take, which are in HostTrie.
- DomainTrie: the nodes are values; the update in place, the single-child shortcut and the compressed form of the trie (`component/trie/domain_set.go`) are not part of this model.
- HostTrie: when the check hangs or refuses in some order is said only without wildcards, by Hosts and HostTrie.PlainIsExact.
- Hosts.PromiseIff: and the other statements about all orders take hosts that are different names once lowered (`Hosts.FoldsApart`), as hosts are where no names are folded together (`Hosts.UnfoldedIsSpelled`); among hosts that are one name in two spellings the one entered last counts, and HostSearch.TwoSpellingsOneEntry shows that the order then decides.
- HostSearch: the system's own hosts file, looked at for a name that is not in the table.
- GroupProxies: the touch of lazy providers, and providers that change between the reading of their version and of their list.
- Fallback: the health check that selecting a dead member starts, and the unsynchronised access to the selection.
- DnsTtl: eviction and capacity of the cache, the exchange itself, and the rounding of the remaining seconds to a 64-bit floating-point number.
- DnsTtl.ServerFailureInTimeIff: speaks of one section and of the moments up to the expiry; past it every TTL is 1.
- Dhcp: the transform of addresses into clients; `Address` and `ResetConnection`, which read the clients without the lock.
- SystemDns: the default servers used when there are none, and the client objects behind the addresses.
- Vless: a connection error in the middle of a frame's payload, after which the framing of that stream is lost.
- Vless.PayloadsArrive: headers arrive whole, which Vless.DeliversIff shows to be needed. A buffer of less than two bytes panics at a header.
- Socks: the other fields of the metadata.
- TunnelPatch: the listeners themselves, and the socket that stays open when the target of a tcp tunnel cannot be parsed.
- Protocol constructors, transports, TLS and QUIC, YAML and JSON parsing, the user interface and the platform bridges are not part of this model.
