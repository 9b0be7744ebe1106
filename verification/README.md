# Benbroo: a verified model of its state machines

Benbroo is a service registry and configuration centre. This project models the parts of it that
carry algorithms or protocols, and proves what they promise:

- **Configuration.** `ConfigStorage` is the table and its history log, changed together in one
  transaction; `ConfigService` publishes, deletes, and answers long polls by comparing digest maps;
  `ListeningCodec` is the text in which a client announces what it listens to, with the server's
  hand-written splitter; `WatchConfig` is the client's watch loop, alone and in every interleaving
  with publishers.
- **Cluster.** `Cluster` is the node table, the manager of one node, leadership and sharding;
  `ClusterProtocol` interleaves several managers on one table down to the single mark of a refresh,
  with crashes, restarts and failing writes.
- **Balancing.** `ConsistentHash` is the client's ring, `Balancer` its round robin and weighted
  choice, `Dns` the order of a DNS answer.
- **Health.** `Health` has the probe counters and the checker, `Passive` the sliding window of
  consumer reports.
- **Events.** `EventBus` has the subscriber lists and their one-slot channels.

`Text`, `Int64`, `Sequences` and `Registry` hold what several of them share. An object whose methods
change its fields is a class here, a loop is a loop, and each method is proved against a function or
predicate about which the lemmas then speak.

Conventions: database tables are maps keyed by their unique index, the history is a sequence, and a
transaction is one step. MD5 and CRC-32 are arbitrary functions passed as parameters; what a result
needs of them is written where it is needed (`Hex`, `Injective`, `Apart`). Random draws, probe
outcomes, database faults and clock readings are parameters. Times are integers (milliseconds in
`Cluster`, nanoseconds in `Health`). Weights are reals, since rounding is not the point. Where a
library sorts, `Sequences.SortBy` stands for it: callers know only "ordered and a rearrangement", so
ties are open.

## What the code does differently from what is said about it

- After a consumer report has marked an instance unhealthy, the documentation wants
  `recoveryThreshold` successes in a row. Reported successes restore nothing, and the probe counters
  are not reset: `RecoveryAfterTrip` says exactly when fewer are enough. A registration keeps the
  failure count in the same way (`WritesKeepStreaks`).
- The DNS answer is described as favouring heavier instances. By `RotationIsFair` every instance of a
  list that rotates comes first equally often while the counter is in step, and by `WeightIsIgnored`
  the heavier ones then come first more often only where no instance is heavier.
- A long poll is described as returning when a listened configuration changes. Where joined keys are
  distinct it returns at its first tick whenever the namespace holds any other row
  (`OnlyRowIsQuiet`); where they collide it can miss a change (`TickIsQuiet`, `TickCanMiss`). A request
  that lists two tenants (without '#') is always answered at its first tick
  (`OtherTenantIsNeverQuiet`).
- A listener entry with a blank tenant passes the length guard of the handler and then panics:
  `ConfigListener`, `BlankTenantPanics`.
- A node that restarts while another refreshes is marked DOWN although it runs, so two nodes can lead
  at once; that is over after two periods and a refresh and not before: `LeadersWait`.
- `ShouldCheckInstance` can index out of range: `OutOfRange`, `UnshardableKey`.

## Model

| member | source | states |
|---|---|---|
| ConfigStorage.ConfigStore.Publish | pkg/storage/config_store.go:19-29 | upserts the row and appends the record together, or changes nothing when either write fails |
| ConfigStorage.ConfigStore.Delete | pkg/storage/config_store.go:45-55 | removes the row and appends the record together, or changes nothing when either write fails |
| ConfigStorage.ConfigStore.ListAllMD5 | pkg/storage/config_store.go:80-86 | lists exactly the rows of one namespace, each once, or fails with nothing |
| ConfigStorage.ConfigStore.History | pkg/storage/config_store.go:89-102 | the requested page of the key's records, newest first, with their total number; nothing when either of its two queries fails |
| ConfigStorage.HistoryIsComplete | pkg/storage/config_store.go:94-101 | the history of a key is all of its records and nothing else, at falling positions of the log |
| ConfigStorage.OneMoreTx | pkg/storage/config_store.go:19-55 | each transaction of a run sets or removes its row and appends its record |
| ConfigStorage.PagesMakeList | pkg/storage/config_store.go:98 | the pages one after the other make up the whole list |
| ConfigStorage.TableIsHistory | pkg/storage/config_store.go:19-55 | in every run of committed publishes and deletes a row exists with some content and digest iff the key's newest record is a U with them, and the digest is that of the content |
| ConfigStorage.ReplayIsNewest | pkg/storage/config_store.go:89-102 | replaying the log keeps a key iff the first record its history shows is a U, with that record's data |
| ConfigService.Service.PublishConfig | pkg/config/config.go:31-75 | rejects an empty data id; else commits the row and a U record with the content's digest under the given names, or public, DEFAULT_GROUP and text for empty ones, or leaves the store alone; keeps the table the replay of its log |
| ConfigService.Service.DeleteConfig | pkg/config/config.go:89-125 | under the same key, commits the removal with a D record carrying what was read before (empty when the read failed or found nothing), or leaves the store alone; keeps the table the replay of its log |
| ConfigService.DeleteThenRepublish | pkg/config/config.go:97-115 | publishing the recorded content again restores the table iff the deleting service had read the content it removed; run sequentially the record carries it |
| ConfigService.OneMoreCall | pkg/config/config.go:31-125 | each call of a sequential run does the same, and a deletion records what the row held, or the empty content |
| ConfigService.DeletionsAreRecorded | pkg/config/config.go:89-125 | in every run of publishes and deletes served one after the other a D record carries content and digest of its key's previous record if that is a U, and the empty content otherwise |
| ConfigService.Service.GetAllMD5 | pkg/config/config.go:155-166 | every row of the namespace has an entry, and every entry is the digest of such a row; nothing when the query fails |
| ConfigService.OneEntryPerRow | pkg/config/config.go:160-164 | the digest map has as many entries as the namespace has rows iff no two rows join to one key, and then each row finds its own digest |
| ConfigService.DigestMapIsUnique | pkg/config/config.go:155-166 | when no two rows join to one key the order in which the database lists them does not matter: there is only one such map |
| ConfigService.HashFreeJoins | pkg/config/config.go:162 | group names without '#' keep joined keys apart |
| ConfigService.JoinedKeysCanCollide | pkg/config/config.go:162 | two rows whose keys coincide because a group name holds '#' |
| ConfigService.Changed | pkg/config/config.go:190-201 | the answer holds exactly the keys with another or no digest at the client, with the digest of the server, and those only the client has, with "" |
| ConfigService.DiffIsExactPatch | pkg/config/config.go:190-204 | the diff is empty iff the maps are equal, and takes the client's map to the server's iff no differing server digest is empty |
| ConfigService.DiffIsLeast | pkg/config/config.go:190-201 | the diff is the least patch: every map that takes the client's digests to the server's names its keys |
| ConfigService.LongPoll | pkg/config/config.go:176-207 | passes over ticks whose rows match the client only, times out only if all do, and else ends with the error or the answer of a tick, one that does not match the client unless rows collide on a joined key |
| ConfigService.AnswerOnMissing | pkg/config/config.go:196-201 | an answer names a key that no row has iff the client announced it, with "" |
| ConfigService.AnswerOnPresent | pkg/config/config.go:191-195 | an answer names a row's key iff the client announced another digest than such a row's, or none, with the row's digest |
| ListeningCodec.IndexOf | pkg/api/server.go:505-512 | the first occurrence, or -1 iff there is none |
| ListeningCodec.Split | pkg/api/server.go:489-503 | terminates and returns the pieces between separators |
| ListeningCodec.RejoinPieces | pkg/api/server.go:489-503 | joining the pieces gives the text back up to one trailing separator |
| ListeningCodec.PiecesAreClean | pkg/api/server.go:489-503 | no piece holds a separator |
| ListeningCodec.TrimSpace | pkg/api/server.go:514-524 | the two loops trim on the left and then on the right |
| ListeningCodec.TrimmedText | pkg/api/server.go:514-524 | trimming cuts off all leading and trailing blanks, line feeds, carriage returns and tabs, and nothing else |
| ListeningCodec.SplitListeningConfigs | pkg/api/server.go:473-487 | trims the entries, skips empty ones, keeps those of three parts or more, in order |
| ListeningCodec.ParserKeeps | pkg/api/server.go:473-487 | of the pieces of any text the parser keeps, in order, the parts of exactly those that have three or more |
| ListeningCodec.EntriesHeard | pkg/api/server.go:473-487 | for every list of separator-free entries: one result per printed entry, with the data id trimmed on the left, the tenant on the right, and a blank tenant lost |
| ListeningCodec.PrintedForm | pkg/client/client.go:452-454 | an entry is printed as data id, group, digest and tenant, with \x02 between them and \x01 at the end |
| ListeningCodec.RoundTrip | pkg/api/server.go:473-524 | the server reads back exactly what clients printed iff every data id has no leading white space and every tenant is non-empty without trailing white space |
| ListeningCodec.ConfigListener | pkg/api/server.go:431-471 | rejects an empty request, panics iff some entry has three parts, else polls the last named tenant with the digests announced last |
| ListeningCodec.Appended | pkg/api/server.go:444-452 | one more entry overrides the digest of its key, and its tenant is polled if it names one |
| ListeningCodec.BlankTenantPanics | pkg/api/server.go:445-446 | for every list of separator-free entries: the printed list holds an entry of three parts, on which the handler panics, iff some tenant is blank |
| ListeningCodec.OtherTenantIsNeverQuiet | pkg/api/server.go:438-471 | a request with an entry of another tenant than the polled one is answered at every tick, whatever the rows are, for that entry counts as deleted (tenants without '#') |
| ListeningCodec.OneEntryHeard | pkg/api/server.go:438-452 | one clean entry reaches the poll as one digest under the row's joined key, for its own tenant |
| WatchConfig.Watch | pkg/client/client.go:437-481 | the loop computes its rounds one after the other; no two consecutive deliveries are equal and the first differs from the initial content |
| WatchConfig.OneMoreRound | pkg/client/client.go:461-481 | a failed or empty poll does nothing; a reported change is taken over iff the fetch brings a new digest, and delivered iff its content is new |
| WatchConfig.RunIsSomeWatch | pkg/client/client.go:437-481 | every run among publishers has a first fetch and rounds, the snapshots its fetches saw, for which the loop computes exactly the watcher of the run |
| WatchConfig.OneMoreStep | pkg/client/client.go:437-481 | what each step of a run among publishers does to tables and watcher |
| WatchConfig.Deliveries | pkg/client/client.go:437-481 | in every interleaving with commits, deliveries are contents published for the key, at strictly increasing positions of the log, never equal in a row, the first different from the first snapshot |
| WatchConfig.FetchConverges | pkg/client/client.go:472-479 | one completed fetch makes the remembered digest and content those of the row |
| WatchConfig.SettledRun | pkg/client/client.go:445-481 | while the row does not change the watcher calls back at most once, with the row's content, and never once it is current |
| WatchConfig.Convergence | pkg/client/client.go:445-481 | any run on an unchanged row that contains one completed poll and fetch ends with the row's digest and content |
| WatchConfig.RequestHeard | pkg/client/client.go:452-460 | the printed request of a clean key is heard as exactly the watcher's digest for its namespace |
| WatchConfig.TickIsQuiet | pkg/config/config.go:191-204 | a poll tick finds nothing for a watcher iff every row of its namespace has the joined key of the watched one and one of them has the remembered digest |
| WatchConfig.TickCanMiss | pkg/config/config.go:160-204 | so a tick can miss that the watched row is gone, where another row joins to the same key |
| WatchConfig.OnlyRowIsQuiet | pkg/config/config.go:191-204 | where joined keys are distinct a tick finds nothing iff the watched row is the only one of its namespace and has the remembered digest |
| WatchConfig.NextTickReports | pkg/client/client.go:445-481 | in every run that leaves the row alone, where joined keys are distinct, the next tick finds nothing iff the watcher is current and the row is the only one |
| WatchConfig.ReportConverges | pkg/client/client.go:463-481 | at any time of such a run one report and its fetch make the watcher current |
| Text.SortStrings | pkg/cluster/cluster.go:145 | an ordered rearrangement |
| Text.AtMostIsLexicographic | pkg/cluster/cluster.go:145 | the order is that of prefixes and of the first different character |
| Text.ItoaReads | pkg/client/client.go:341-343 | numbers are printed in decimal, without leading zeros |
| Cluster.ClusterNodeStore.Upsert | pkg/storage/namespace_store.go:63-68 | sets state and last beat of one address, or fails and changes nothing |
| Cluster.ClusterNodeStore.List | pkg/storage/namespace_store.go:71-75 | every row once, in any order, or fails with none |
| Cluster.ClusterNodeStore.MarkDown | pkg/storage/namespace_store.go:78-80 | sets the state of an existing row, unconditionally, or fails and changes nothing |
| Cluster.Manager.Start | pkg/cluster/cluster.go:39-61 | registers as UP exactly those of the node and the configured members whose write succeeds, and touches no other row |
| Cluster.StartRegisters | pkg/cluster/cluster.go:39-61 | row by row: UP with the current time for the node and the members whose write succeeds, every other row as before |
| Cluster.Manager.UpdateSelfHeartbeat | pkg/cluster/cluster.go:87-94 | the own row is UP with a new beat unless the write fails, which is ignored |
| Cluster.Manager.RefreshNodes | pkg/cluster/cluster.go:96-118 | marks the stale UP peers DOWN whose update succeeds, while the cache keeps the rows as listed before; on a query error nothing changes |
| Cluster.RefreshMarks | pkg/cluster/cluster.go:103-113 | row by row: UP becomes DOWN iff the row is that of another node, last beat more than 15 s ago, and the update succeeds; no beat changes |
| Cluster.WithoutFaults | pkg/cluster/cluster.go:39-118 | when every write succeeds a start registers the node and all members, and a refresh marks every stale peer |
| Cluster.Manager.IsLeader | pkg/cluster/cluster.go:130-147 | true iff no cached row is UP or this is the least UP address |
| Cluster.LeaderIsFirst | pkg/cluster/cluster.go:130-147 | letter by letter: with no row UP every node leads; else the UP node whose address is a prefix of every other UP address or smaller where they first differ |
| Cluster.ListedUp | pkg/cluster/cluster.go:97-117 | a cache shows UP exactly the addresses that were UP in the table it was listed from |
| Cluster.OneLeader | pkg/cluster/cluster.go:130-147 | among nodes that cache the same non-empty set of UP addresses exactly one leads, and it is the least |
| Cluster.Manager.ShouldCheckInstance | pkg/cluster/cluster.go:156-181 | with no UP node every node checks; else yes iff this is the UP node whose rank is the shard index, and an index panic iff the index is out of range |
| Cluster.OwnerStandsAtIndex | pkg/cluster/cluster.go:168-181 | in the ordered list of UP addresses the owner of a key stands at its shard index |
| Cluster.OneOwner | pkg/cluster/cluster.go:156-181 | among nodes that cache the same non-empty set of UP addresses at most one owns a key, and one does iff its index is in range |
| Cluster.ShardHash | pkg/cluster/cluster.go:172-175 | the hash that wraps at every step equals the base-31 numeral of the key wrapped once |
| Cluster.IndexInRange | pkg/cluster/cluster.go:176-180 | the computed index is in range iff the hash is not the least integer or the node count divides 2^63 |
| Cluster.UnshardableKey | pkg/cluster/cluster.go:172-180 | a plain lower-case key that no node among three can check |
| ClusterProtocol.StartWrites | pkg/cluster/cluster.go:39-61 | a start is possible iff the node does not run; it registers the node and all given members as UP now, touches no other row, and begins with an empty cache |
| ClusterProtocol.StartIsManagers | pkg/cluster/cluster.go:39-61 | the start step writes what the manager's Start writes, whichever registrations of members fail |
| ClusterProtocol.BeatWrites | pkg/cluster/cluster.go:87-94 | a heartbeat writes the own row as UP now, and changes no row when it fails |
| ClusterProtocol.StepIsLocal | pkg/cluster/cluster.go:63-118 | no step changes the cache of another node; only starts, successful marks and successful heartbeats write the table, a mark its one row |
| ClusterProtocol.LoopInOrder | pkg/cluster/cluster.go:74-118 | a node lists, reads the clock, marks each UP peer whose listed beat is more than 15 s old, shows the listing and beats, in this order only; a failed listing goes straight to the heartbeat |
| ClusterProtocol.WhenEnabled | pkg/cluster/cluster.go:63-118 | runs go on with every possible step, and with time up to the first deadline of a running node |
| ClusterProtocol.StepKeeps | pkg/cluster/cluster.go:39-118 | every start, advance of time, listing, clock reading, single mark, end of a refresh, heartbeat and crash, with failing writes, keeps the invariant of the protocol |
| ClusterProtocol.RefreshRuns | pkg/cluster/cluster.go:96-118 | a refresh whose steps nothing interrupts does to table and cache what the manager's RefreshNodes does, with any of its marks failing |
| ClusterProtocol.BoundedDetection | pkg/cluster/cluster.go:39-118 | in every run whose whole refreshes and beats are at most p old, whose refreshes take at most d, p + d <= 15 s, interleaved in any way with crashes and restarts: a running node is only ever marked by a refresh that listed no later than it started; it is UP in the table after p + d, and 2p + d after its start UP in the cache of every node that has run for p; a stopped peer whose row is older than 15 s + 2p is DOWN in the table and in the cache of every node that has run for 2p |
| ClusterProtocol.NeverTwoLeaders | pkg/cluster/cluster.go:130-147 | at no time of any run do two nodes lead that have both run for 2p + d |
| ClusterProtocol.LeadersWait | pkg/cluster/cluster.go:120-147 | for all such p and d: waiting for a span after each start rules out two leaders in all runs iff the span is at least 2p + d |
| ClusterProtocol.PeersWait | pkg/cluster/cluster.go:87-118 | for all such p and d: in all runs nodes that have run for a span show each other UP iff the span is at least 2p + d |
| ClusterProtocol.Agreement | pkg/cluster/cluster.go:130-181 | once every stopped peer is that old, all caches show exactly the running nodes UP, exactly the least running address leads, and each key in range has one owner among them |
| ClusterProtocol.DetectionIsExact | pkg/cluster/cluster.go:74-118 | for all such p and d: in all runs a node that has run for a span shows each stopped peer DOWN whose row is older than a bound iff the span is at least 2p and the bound at least 15 s + 2p |
| ClusterProtocol.RunningStaysUp | pkg/cluster/cluster.go:87-113 | for all p and d <= p: nodes that have run for a span are UP in the table in all runs iff p + d fits into the 15 s and into the span |
| ConsistentHash.Select | pkg/client/client.go:330-357 | returns an owner of the least virtual node not below the key's hash, or of the least of all when there is none |
| ConsistentHash.ChosenIsNearest | pkg/client/client.go:350-356 | an instance can be chosen iff one of its 160 points is the nearest to the key, clockwise on the ring of 2^32 |
| ConsistentHash.BuildRing | pkg/client/client.go:339-347 | the ring holds the 160 virtual nodes of every instance and nothing else, 160 times as many as there are instances |
| ConsistentHash.NodeTextTells | pkg/client/client.go:340-343 | the hashed text of a virtual node tells ip, port and number, whatever the ip looks like |
| ConsistentHash.NodeTextExample | pkg/client/client.go:340-343 | the last virtual node of 10.0.0.1:8080 is hashed as 10.0.0.1:8080#159 |
| ConsistentHash.SortRing | pkg/client/client.go:348 | an ordered rearrangement, ties open |
| ConsistentHash.Search | pkg/client/client.go:352 | the first index whose hash is not below the key's |
| ConsistentHash.ChoiceIsDetermined | pkg/client/client.go:339-356 | the choice depends only on key and set of instances, not on list order or sorting, iff no two instances share a point |
| ConsistentHash.ApartByAddress | pkg/client/client.go:339-347 | where the checksum tells the texts apart, no two instances share a point iff no two have the same ip and port |
| ConsistentHash.DisruptionIsMinimal | pkg/client/client.go:339-356 | for every set: removing an instance changes the choice of exactly the keys mapped to it iff no two of the remaining instances share a point |
| ConsistentHash.MinimalDisruption | pkg/client/client.go:339-356 | so without shared points every removal, and read backwards every addition, moves only the keys of that instance |
| ConsistentHash.DisruptionNeedsApart | pkg/client/client.go:339-356 | with three or more instances all removals are minimal iff no two instances share a point |
| Balancer.Client.RoundRobin | pkg/client/client.go:303-309 | the remainder of the stored counter, 0 at first, and one more is stored: one pick of the sequence of picks, which later calls continue; other services keep their counters |
| Balancer.RoundRobinIsFair | pkg/client/client.go:303-309 | over any n consecutive calls with a list of size n each position is picked exactly once, whatever the sizes before |
| Registry.SumWeights | pkg/client/client.go:312-315 | the total weight |
| Balancer.WeightedSelect | pkg/client/client.go:311-328 | with positive total the first instance whose cumulative weight reaches the draw; the fallback only for a draw above the total |
| Balancer.DrawInterval | pkg/client/client.go:319-326 | a positive draw selects an instance iff it falls in an interval as long as its weight |
| Balancer.DrawsPartition | pkg/client/client.go:319-327 | every draw from 0 to the total lands on exactly one instance |
| Balancer.ZeroWeight | pkg/dns/server.go:297-304 | an instance of weight zero is returned iff the draw is 0 and it stands first |
| Balancer.ChoiceIsProportional | pkg/client/client.go:311-328 | for integer weights of total W exactly w_i of the draws 1..W select instance i |
| Dns.Server.WeightedSelect | pkg/dns/server.go:240-286 | a list of one or without weight comes back as it is and leaves the counter; any other comes in its exchange-sorted order, first unrotated, rotated by the counter of the domain, which advances with 64-bit wrap-around |
| Dns.SortInPlace | pkg/dns/server.go:268-274 | the nested loops leave the exchange-sorted order in the buffer |
| Dns.SortDescends | pkg/dns/server.go:268-274 | that order is a descending rearrangement |
| Dns.SortKeepsOrder | pkg/dns/server.go:268-274 | what stands in descending order is not rearranged: only a strictly heavier instance overtakes |
| Dns.AnswerIsRotatedOrder | pkg/dns/server.go:240-286 | every answer is a rearrangement of the instances and, when it rotates, a rotation of a descending order |
| Dns.AnswersGoRound | pkg/dns/server.go:276-283 | each answer is the one before with its first instance moved to the end |
| Dns.RotationIsFair | pkg/dns/server.go:254-283 | every instance comes first in exactly one of as many consecutive answers to an unchanged list as it has instances iff the list rotates (two or more, positive total weight) and the counter is in step: not negative and without overflow within them, but for one step that happens to fit |
| Dns.WeightIsIgnored | pkg/dns/server.go:240-286 | in step heavier instances come first more often iff all weights are equal |
| Health.CountersAreStreaks | pkg/health/health.go:145-169 | under probes alone the counters are the lengths of the trailing runs, never both positive, and the flag tells the outcome of the last streak that reached its threshold |
| Health.FlagIsLastSet | pkg/health/health.go:129-202 | in every mixed history of probes, lost writes, consumer reports, timeouts and registrations the counters are the trailing runs of the probes, and the flag is healthy iff some event set it and none cleared it since, or it was so from the start and none cleared it |
| Health.FlipsNeedProbes | pkg/health/health.go:145-169 | from healthy with zero counters m flips need at least ceil(m/2) fail thresholds plus floor(m/2) recovery thresholds of probes |
| Health.FlipsAreCheap | pkg/health/health.go:145-169 | that bound is attained for every m |
| Health.WritesKeepStreaks | pkg/health/health.go:145-192 | after any history and a write against them, n equal outcomes turn the flag iff n plus those counted before the write reach the threshold: for trips by reports as for registrations |
| Health.RecoveryAfterTrip | pkg/health/health.go:149-158 | after any history and a passive trip, n successes restore the flag iff n plus the successes counted before reach the recovery threshold; so recovery takes the threshold iff none was counted or the threshold is one |
| Health.WithDefaults | pkg/health/config.go:14-36 | of all seven settings exactly the positive ones are kept and the others take their documented defaults |
| Health.WhichAreChecked | pkg/health/health.go:103-139 | persistent instances and those whose service wants no or only passive checks are left alone; any other is timed out iff its last beat is older than the timeout, and else probed |
| Health.WhereProbed | pkg/health/health.go:107-122 | probes go to the own ip, with protocol and path of the service, at the service's port if it sets one and else at the own; without a service over TCP |
| Health.Checker.FlagTellsHistory | pkg/health/health.go:145-202 | at any time between the operations of the checker the stored flag is what the history of the instance says, and its counters are the trailing runs |
| Health.StaleListing | pkg/health/health.go:149-168 | a probe judged by a listed flag that is no longer the stored one counts but writes nothing new |
| Health.Checker.ProcessActiveResult | pkg/health/health.go:145-169 | applies one probe to one instance by the flag as listed, however old, and changes no other instance; a write may fail |
| Health.Checker.CheckInstance | pkg/health/health.go:103-142 | one listed row is skipped, timed out or probed at its configured target, and nothing else happens; a check type other than the four known ones is probed |
| Health.Checker.RunActiveCheck | pkg/health/health.go:81-143 | a round treats every instance by itself, whatever the order of the rows, with its own clock reading, probe and write; a failed listing ends it |
| Health.Checker.ReportFailure | pkg/health/health.go:175-202 | records, then counts the service's window, and clears the flag iff the count reaches the service's threshold and the write succeeds |
| Health.Checker.ReportSuccess | pkg/health/health.go:206-208 | only clears the failures |
| Passive.Tracker.ReportFailure | pkg/health/passive.go:27-33 | appends a failure |
| Passive.Tracker.ReportSuccess | pkg/health/passive.go:37-41 | forgets the instance |
| Passive.Tracker.FailureCount | pkg/health/passive.go:44-63 | prunes the instance's failures to the window and returns their number |
| Passive.LaterKeeps | pkg/health/passive.go:48-56 | exactly the failures after the cutoff stay, each as often as before |
| Passive.PruningRefines | pkg/health/passive.go:27-63 | with a clock that does not run back and positive windows, the stored failures are exactly those since the last success that are later than the greatest cutoff ever used |
| Passive.RecentCounted | pkg/health/passive.go:27-63 | that history holds one failure for each report of the instance after its last success and the cutoff |
| Passive.CountIsCut | pkg/health/passive.go:44-63 | a count is the number of failures since the last success that are later than its own cutoff and every earlier one |
| Passive.CountIsExact | pkg/health/passive.go:44-63 | a count equals that over the unpruned history iff no failure in its window was cut off before |
| Passive.FixedWindowIsExact | pkg/health/passive.go:44-63 | with one fixed window every count is that of the unpruned history |
| Passive.GrowingWindowUndercounts | pkg/health/passive.go:48-61 | a growing window can count too few |
| Passive.NoLostCrossing | pkg/health/health.go:175-192 | in every interleaving of the record and count steps of K reports inside one window some report counts at least K |
| Passive.CrossingClearsFlag | pkg/health/health.go:175-202 | in every interleaving of their record, count and write steps, of K reports with thresholds up to K one reaches its threshold, and unless its write fails the flag is cleared and stays so until something else sets it |
| EventBus.EventBus.SubscribeTo | pkg/subscribe/eventbus.go:44-51 | a new open channel at the end of the topic's list |
| EventBus.EventBus.PublishChange | pkg/subscribe/eventbus.go:29-40 | fills the slot of every subscriber and sends on open channels only |
| EventBus.EventBus.UnsubscribeFrom | pkg/subscribe/eventbus.go:54-66 | removes and closes the channel if it is listed, closing only an open one |
| EventBus.EventBus.ReceiveFrom | pkg/subscribe/eventbus.go:42-46 | a live subscriber gets a token iff its topic was published since its last receive |
| EventBus.BusTellsHistory | pkg/subscribe/eventbus.go:29-66 | in every run each list holds exactly the live subscribers of its topic in the order they subscribed, a channel is open exactly while it lives, and a live subscriber's slot is full iff its topic was published since it last received |
| EventBus.ListedIsOpen | pkg/subscribe/eventbus.go:29-66 | no list repeats a channel, no channel is in two lists, every listed channel is open |

## Left out

- HTTP, gRPC, TCP and DNS transport, JSON, name parsing, authentication, the web console, and the
  naming, service and namespace records: plumbing or thin wrappers with easy claims.
- `GRPCWatchConfig` and `ListenConfig`: the same watch loop over another transport.
- Paginated listing of configurations, timestamps and row ids: they take no part in the properties.
- The notifications that services publish on the event bus after a commit, and the HTTP broadcast to
  peers: fire and forget.
- EventBus.EventBus.PublishChange: one publish is atomic; the source reads the list under its lock
  but sends outside it, so a send on a channel that is unsubscribed meanwhile is not modelled.
  Channels are numbers with their state in the bus, not heap objects.
- ClusterProtocol.BoundedDetection: all nodes read one clock, and a heartbeat reads it in the step that
  writes the row. Writes and listings may fail, but the period `p` bounds the age of what succeeded:
  the last beat, and the listing of the last refresh without a failed mark. A start whose own
  registration fails is not modelled; failed registrations of other members are. A restart registers
  every configured member as UP, which counts as a beat of those members. "Older than" is strict, and
  the bounds are the least that hold (`RunningStaysUp`, `LeadersWait`, `PeersWait`,
  `DetectionIsExact`) where a refresh takes no longer than a period.
- Cluster.Manager.Start: the readings of the clock within one call are one value.
- Cluster.Manager.ShouldCheckInstance: keys are sequences of code points, as the source ranges over
  them; invalid UTF-8 is not modelled.
- Health.Checker.RunActiveCheck: this method is one round without interruption. What happens when
  reports, registrations or heartbeats come between the listing and the checks is stated by
  `CheckInstance`, which takes a row listed at any earlier time.
- Health.Checker.Register: which fields of a row an upsert overwrites is not modelled; of a
  registration only the flag, the last beat and the kept counters matter here.
- Passive.PruningRefines: `Cleanup`, which does the same as a success, is not repeated.
- Balancer.WeightedSelect: weights are reals, so only the stated case of a draw above the total
  stands for rounding. `randomWeightedPick` of the DNS server is the same code and is not repeated.
- ConfigService.LongPoll: which ticks come before the deadline is an input.
