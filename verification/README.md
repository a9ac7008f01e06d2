# Verified model of simnet

Simnet deploys the nodes of a simulation in containers, gives each of them a slice of a network topology,
turns that slice into `tc` commands inside the container, and measures the containers while they run. This
project models the parts where these steps can go wrong and proves what they promise.

| file | what it models |
|---|---|
| `Prelude.dfy`, `Text.dfy`, `Decimal.dfy` | the few pieces of Go's `strings`, `strconv` and `fmt` that matter: splitting, joining, printing and reading numbers |
| `Rule.dfy`, `Tc.dfy`, `Commands.dfy`, `Executor.dfy` | the compiler from rules to `tc` commands, and a device that reads, refuses or applies each command and classifies packets |
| `Topology.dfy`, `Latency.dfy`, `Area.dfy` | the topologies, as the nested loops over maps that build them |
| `Emulation.dfy`, `AreaOrder.dfy`, `UploadConfig.dfy` | from a topology and the pods of a cluster to the network that each node sees |
| `Metrics.dfy` | the lines written by the monitor, the reader of a time window, and the summaries |
| `Monitor.dfy`, `DockerProtocol.dfy`, `DockerIO.dfy` | the goroutines that measure: the monitor's channels as a state machine, and the Docker variant both as a state machine and in memory, with slices that share arrays |
| `WaitLoops.dfy`, `FanOut.dfy`, `LinkState.dfy` | the Kubernetes engine: waiting loops over event traces, workers under any schedule, cutting and restoring links |
| `Simplot.dfy` | tags and ticks of the plots, sizes in the tables |

What the model assumes of the outside world:

* The `tc` tool is not part of the repository. `Tc.dfy` states the convention used for it: the parts of a
  handle are numbers in base 16 that fit 16 bits, `add` refuses a used handle, an occupied parent or a
  parent or flow that does not exist, and the first matching filter of the root decides.
* The result of every call into Docker, Kubernetes, a file or the clock is a parameter: an event trace, a
  schedule, a stream of samples, or how many commands a shell ran before it stopped.
* A map is walked in an arbitrary order, chosen anew at each loop.

What the proofs found in the code:

* `Execute` prints minors and majors in decimal while the device reads them in base 16. They stay distinct,
  but the thousandth distinct address has minor 10000, which does not fit. So a configuration succeeds if
  and only if there are at most 999 distinct addresses, all of them hosts (`Executor.CompilerCorrect`).
* The comment in `Execute` says that the root is replaced, but the command adds one: a device that has been
  configured refuses every later configuration and keeps the first (`Executor.SecondRunRefused`).
* Above 1000 nodes an area topology is refused, but the first 999 links of a node stay on its device. The
  loops list a node's own area first, in a fixed order, and then the other areas in turn, each in the order
  in which Go walks a map. So that order decides what is emulated if and only if the links into another
  area begin before the 999th and end after it (`AreaOrder.OrderIsIrrelevantIff`), as they do from the
  first of two areas of 500 and 600 nodes (`AreaOrder.TwoAreasStraddle`).
* A neighbour without an entry in the mapping makes the whole configuration fail, not only its own rule
  (`Emulation.UnmappedIsRefused`).
* With several pods of one label, the rules go to the address of the last and a cut finds the first. They
  agree if and only if the two share an address (`UploadConfig.AgreesIff`, `UploadConfig.CanDisagree`).
* The monitor program calls `Stop` from the goroutine that reads the stream. Then `Stop` is sure to return
  if and only if the consumer is over, or it selects, the buffer is empty and the stream has ended
  (`Monitor.StopReturnsIff`). Otherwise the select may pick a sample instead of the request to close, and
  hold it for ever (`Monitor.StopCanBlock`).
* After the consumer is over, the producer is lost as soon as it has a sample more than the buffer takes
  (`Monitor.ProducerStuckIff`, `Monitor.ProducerCanStick`).
* When the select picks the error of the stream, a decoded sample is lost if and only if the buffer is not
  empty (`Monitor.ErrorLosesIff`, `Monitor.ErrorCanLose`).
* An area with nodes that is passed twice makes the topology incomplete; nothing else does
  (`Area.AreaTopology.constructor`).
* A line of 64 KiB or more ends the reading of the measures without an error; no written line is that long
  (`Metrics.LinesConcat`, `Metrics.LinesOfWritten`).
* `WaitDeletion` waits only for the deployments that it has heard of. It covers given deployments if and only
  if the events never show all named ones gone while one of the given ones has yet to be named
  (`WaitLoops.NilCoversIff`, `WaitLoops.NilCanComeEarly`).
* A sample with a negative timestamp is written but never read back (`Metrics.WriteAndRead`).
* `WaitDeployment` compares sizes for equality. This misses nothing, unless no pod is awaited and the first
  event is a ready pod (`WaitLoops.EqualityIsThreshold`).
* `Average` is the mean of a column exactly when its sum fits 64 bits (`Metrics.MeanIsExactIff`).
* The second of the right end of a time axis has the last tick exactly when truncation takes from the right
  end as much as from the left end, or less than a second more (`Simplot.LastTick`).
* `int2human` does not terminate above 1024^4 (`Simplot.HumanEndsIff`).

## Model

| member | source | states |
|---|---|---|
| Metrics.ReadNumber | metrics/mod.go:136-138 | a number printed with `%d` is read back as itself if it fits 64 bits, and refused if not |
| Metrics.ReadPadded | metrics/mod.go:136-138 | blanks around a number do not matter |
| Decimal.DecInjective | network/topology.go:60-64 | two numbers print the same only if they are equal, so numbered nodes never share a name |
| Decimal.HexReadMonotone | daemon/monitor/netem/executor.go:90-106 | decimal prints read in base 16 keep the order of the numbers, so distinct minors and majors stay distinct handles |
| Decimal.HexReadFits | daemon/monitor/netem/executor.go:90-106 | such a handle fits 16 bits if and only if the number is at most 9999 |
| Rule.MatchAddrInjective | network/rule.go:62-64 | two rules have the same match address exactly if they have the same IP |
| Commands.ReadPrintedNetEm | daemon/monitor/netem/executor.go:100-102 | whatever delay and loss a rule has, the device reads from the printed netem part m milliseconds with m * 1,000,000 <= delay < (m + 1) * 1,000,000 nanoseconds, or zero if the delay is not positive, and the nearest number of hundredths of a percent, or zero if the loss is not in (0, 1] |
| Commands.ParamsOnWire | network/rule.go:15-35 | the same of the parameters of a rule, in nanoseconds and with the rounding of the loss to the nearest, ties to even |
| Commands.ReadRoot | daemon/monitor/netem/executor.go:80-83 | the device reads the root command as adding a root with handle 1, for every device name that is a word |
| Commands.ReadParent | daemon/monitor/netem/executor.go:85-88 | the device reads the parent command as adding the class 1:1 below the root |
| Commands.ReadClassCommand | daemon/monitor/netem/executor.go:90-93 | the device reads the class command as adding that class below 1:1, and refuses to read it exactly if the minor does not fit 16 bits |
| Commands.ReadFilterCommand | daemon/monitor/netem/executor.go:104-107 | the device reads the filter command as sending the rule's IP to the class, exactly if the IP is a host |
| Commands.ReadQDiscCommand | daemon/monitor/netem/executor.go:95-98 | the device reads the qdisc command as attaching to the class a netem discipline with the rule's parameters |
| Executor.Executor.MakeCommands | daemon/monitor/netem/executor.go:25-51 | the loop over a growing map yields the commands of the rules that are the first for their address, numbered 10, 11, 20, 21, ... in their order |
| Executor.CommandWords | daemon/monitor/netem/executor.go:25-32 | word by word, the two commands of the root, and three commands for each distinct address behind them |
| Executor.AddressWords | daemon/monitor/netem/executor.go:35-51 | word by word, the commands of the i-th distinct address, with the minor 10(i + 1), the major one more, the rate, and a netem part that reads as the delay and loss of the first rule |
| Executor.Executor.RunCommands | daemon/monitor/netem/executor.go:53-59 | commands are applied in order up to the first refused one, which decides the result |
| Executor.Executor.Execute | daemon/monitor/netem/executor.go:25-62 | on an empty device, success is equivalent to at most 999 distinct host addresses, and after a success every destination meets the parameters of its first rule, by its nanoseconds and loss, and no other; a device that has a root refuses and stays as it was |
| Executor.FirstsKeepFirstRule | daemon/monitor/netem/executor.go:35-39 | dropping later rules of an address changes for no destination which rule comes first |
| Executor.FirstsAreDistinct | daemon/monitor/netem/executor.go:34-39 | the rules that are kept have distinct addresses, are as many as the distinct addresses, and miss none |
| Executor.TreeInvariant | daemon/monitor/netem/executor.go:38-51 | in the tree of any number of rules, every filter leads to a class that exists, every leaf hangs on one, and the next minor and major are larger than all in use |
| Executor.TreeClassifies | daemon/monitor/netem/executor.go:41-51 | the tree sends each destination to the netem discipline of its rule, and a destination without a rule to none |
| Executor.CompilerRun | daemon/monitor/netem/executor.go:25-62 | also when a command is refused midway, the network is that of the rules accepted so far, and a class left behind is reached by no packet |
| Executor.CompilerCorrect | daemon/monitor/netem/executor.go:25-62 | compiling any rules and running the commands on an empty device succeeds if and only if there are at most 999 distinct host addresses, and then emulates for every destination the first rule, by its nanoseconds and loss, and nothing else |
| Executor.EveryPrefixAccepted | daemon/monitor/netem/executor.go:31-51 | in every prefix of the commands each class, filter and qdisc refers only to what exists already and uses a fresh handle |
| Executor.SecondRunRefused | daemon/monitor/netem/executor.go:28-32 | after any run on an empty device, complete or not, a second configuration is refused by its first command and changes nothing |
| Commands.FilterTellsAddress | daemon/monitor/netem/executor.go:104-107 | two filter commands for different addresses differ |
| Executor.CommandsTellOrder | daemon/monitor/netem/executor.go:25-51 | the commands tell which addresses the rules have, and in which order |
| Topology.NodeNameInjective | network/topology.go:60-64 | numbered nodes have distinct names |
| Topology.NodeNameReads | network/topology.go:60-64 | the number of a node can be read behind the prefix of its name, and the first one is node0 |
| Topology.NewSimpleTopology | network/topology.go:52-76 | between 0 and 5000 nodes, each but the first with one link, to node0, with the given delay and no loss |
| Topology.SimpleTopology.Rules | network/topology.go:90-104 | one rule per link of the node, in order, with the address that the mapping gives, or the empty one |
| Topology.NewFullTopology | network/full.go:18-50 | each mentioned name is a node once, in the order of first mention, and the links of a name are exactly its inputs, in their order |
| Latency.Millis | network/area.go:133-139 | the whole number of units between two locations, of which both coordinates are written out: not more than the distance, and less than one above it |
| Latency.RootUnique | network/area.go:134-137 | there is only one such integer |
| Latency.LatencySymmetric | network/area.go:133-139 | the latency is the same in both directions |
| Latency.CauchySchwarz | network/area.go:133-139 | the inner product of two displacements is at most the product of their lengths |
| Latency.LatencyTriangle | network/area.go:133-139 | the detour over a third location is at most 1 ms shorter than the direct way, for all real coordinates |
| Latency.LatencyTriangleTight | network/area.go:133-139 | there are locations for which the detour is 1 ms shorter |
| Area.Area.Populate | network/area.go:38-61 | an area holds its nodes with consecutive numbers, each with the links to all other ones in the order of their numbers, and none to itself |
| Area.Area.MakeAreaLinks | network/area.go:119-131 | to the links of each node, one to each node of the other area is appended, in whatever order, also if it is the same area; earlier links stay |
| Area.AreaTopology.constructor | network/area.go:31-74 | the nodes of an area are those of one of the places where it is passed; every node ends with one link to each other node of the topology, its own area first and the others in turn, carrying the latency of its area or the distance, if and only if no area with nodes is passed twice |
| Area.AreaTopology.Len | network/area.go:77-83 | the number of nodes is the sum of what the areas ask for, also if one is passed twice |
| Area.AreaTopology.GetNodes | network/area.go:86-95 | for each area in turn its nodes, each once; of a complete topology every node exactly once |
| Area.AreaTopology.Rules | network/area.go:98-117 | the rules are those of the links of a node with the name, in the first area that has one, and nil if none has, whatever the order of the maps; in a complete topology there is only one such node |
| Area.WalkLists | network/area.go:48-71 | the links that the loops can give a node, its own area in sequence and the others block by block in any order, are exactly those it should have, each once |
| Area.CompleteDigraph | network/area.go:31-74 | the links of a node, in any order, are one to each other node and none to itself, one fewer than there are nodes, each with the delay between the two areas |
| Area.WantedCount | network/area.go:31-74 | no two links of a node coincide, so their number can be counted area by area |
| Emulation.LinksEmulated | daemon/monitor/netem/executor.go:25-62 | for a mapping with distinct hosts, the rules of a node's links are accepted exactly if it has at most 999 neighbours, and then the first link to a name decides and nothing else is emulated |
| Emulation.LinksAcceptedIff | network/topology.go:90-104 | for any mapping without blanks, the rules of links are accepted if and only if they have at most 999 addresses and every target is mapped to a host |
| Emulation.UnmappedIsRefused | network/topology.go:95-98 | one link to a name without an address makes the whole configuration fail |
| Emulation.FullEmulated | network/full.go:22-48 | a full topology, end to end: toward each name the latency of the first input, m milliseconds with m * 1,000,000 <= latency < (m + 1) * 1,000,000 nanoseconds, and nothing toward names without an input |
| Emulation.ConfigureFull | network/full.go:18-50 | the same, of the program that builds the topology, takes the rules and configures the device |
| Emulation.AreasEmulated | network/area.go:98-139 | areas, end to end, for every order of the links: between nodes of one area its latency in whole milliseconds, between nodes of two the truncated distance of their coordinates, accepted exactly up to 1000 nodes |
| Emulation.ConfigureArea | network/area.go:31-139 | of the program that numbers and links the areas, takes the rules of a node and configures its device: for every list of areas the device is given the rules of the first node of the name, or none; without an area passed twice they are those of a walk of the loops, and the device accepts exactly up to 1000 nodes and then delays by the latency of an area within it and by the distance of the coordinates between two |
| Emulation.SameNetworkIff | network/area.go:119-131 | for any number of nodes, two orders of the links of a node give networks that treat every destination alike if and only if the same links are among the first 999 of each |
| Emulation.OrderIsIrrelevant | network/area.go:119-131 | with at most 1000 nodes that is so for any two orders |
| Emulation.ProgramWalks | network/area.go:48-71 | what the loops give a node is its own area in sequence and then the other areas in turn |
| AreaOrder.WalkLength | network/area.go:48-71 | how many links a node has when the loops have come to an area |
| AreaOrder.WalksAgree | network/area.go:65-71 | two walks of the loops have the same links among their first 999 if no area is straddled by that bound |
| AreaOrder.StraddlingChangesNetwork | network/area.go:119-131 | if one is, every walk of the loops has another one that gives a different network |
| AreaOrder.OrderIsIrrelevantIff | network/area.go:48-131 | all walks of the loops give a node the same network if and only if no area is straddled |
| AreaOrder.TwoAreasStraddle | network/area.go:119-131 | from the first of two areas of 500 and 600 nodes, two walks give different networks |
| AreaOrder.NotStraddled | network/area.go:65-71 | a single area of any size is never straddled, nor are areas of at most 1000 nodes together |
| Emulation.OrderChangesCommands | network/area.go:119-131 | two orders of the links of a node compile to the same commands if and only if they are equal |
| Emulation.AreaDelaysSymmetric | network/area.go:119-139 | two configured nodes emulate the same delay toward each other |
| UploadConfig.MakeMapping | sim/kubernetes/engine.go:351-358 | every label that is not empty is mapped to the address of the last pod that has it, and nothing else is mapped |
| UploadConfig.MappingSeparates | sim/kubernetes/engine.go:351-358 | with distinct labels and addresses, the mapping gives each node its own host |
| UploadConfig.MappingAgreesWithFindPod | sim/kubernetes/engine.go:711-719 | then the address used for the rules is that of the pod found for a cut |
| UploadConfig.AgreesIff | sim/kubernetes/engine.go:351-358 | on any cluster, the address used for the rules of a node is that of the pod found for a cut if and only if the first and the last pod of the label share it |
| UploadConfig.AllAgreeIff | sim/kubernetes/engine.go:351-358 | they agree for all nodes if and only if no label has a first and a last pod with different addresses |
| UploadConfig.CanDisagree | sim/kubernetes/engine.go:711-719 | a cluster on which they differ |
| UploadConfig.FullOnCluster | sim/kubernetes/engine.go:343-402 | the device of a pod accepts its rules exactly up to 999 destinations, and then emulates toward each other pod the latency of the first input between their nodes, in whole milliseconds, and toward pods without an input nothing |
| UploadConfig.AreasOnCluster | sim/kubernetes/engine.go:343-402 | an area topology on a cluster, for every order of the links: each pod's device emulates toward the pod of each other node the latency of their area or the distance of the coordinates, and toward the rest nothing, accepted exactly up to 1000 nodes |
| UploadConfig.UploadedFull | sim/kubernetes/engine.go:343-402 | under any schedule, an upload that has returned nil has left every pod with a device that emulates what the inputs ask for; no node then has more than 999 destinations, and if workers fail only by refusals this is also enough for nil |
| UploadConfig.NilConfiguresAll | sim/kubernetes/engine.go:343-402 | under any schedule, if a call that returns nil has configured its pod, an upload that has returned nil has left every pod with a device that has accepted its rules, and if calls return errors only for refusals it returns nil exactly if every device accepts |
| UploadConfig.UploadedAreas | sim/kubernetes/engine.go:343-402 | the same for areas: after nil every node's device emulates toward every pod what the areas ask for, with at most 1000 nodes, which is also enough for nil if workers fail only by refusals |
| Metrics.WriteSamples | daemon/monitor/main.go:73-77 | each sample is one line of five numbers, in order |
| Metrics.LineText | daemon/monitor/main.go:73-75 | the line of a sample is its five numbers with a comma between them: time, received, sent, processor, memory |
| Metrics.ParseLine | metrics/mod.go:142-154 | the fields that are unsigned 64-bit numbers, in order; others are skipped and shift the rest |
| Metrics.NewNodeStats | metrics/mod.go:39-61 | the columns of the lines, up to one that is too long for the scanner, that hold at least five numbers and whose first lies in the window |
| Metrics.ReadLine | metrics/mod.go:142-154 | a written line is read back as its sample, exactly if the timestamp is not negative |
| Metrics.LinesConcat | metrics/mod.go:42-44 | what is read before a line break does not depend on what follows, and what follows is read as if alone, exactly if no line before was too long |
| Metrics.LineWithReturn | metrics/mod.go:42-44 | a carriage return before the line break is not part of the line |
| Metrics.LinesOfWritten | daemon/monitor/main.go:73-77 | of any written samples the scanner finds exactly the lines |
| Metrics.WriteAndRead | daemon/monitor/main.go:73-77 | writing any samples and reading a window gives exactly the samples of the window, in order and each value in the column of its name; those with negative timestamps are lost |
| Metrics.WindowIsBlock | metrics/mod.go:50-56 | if timestamps do not decrease, a window is one contiguous block of the samples |
| Metrics.Max | metrics/mod.go:64-89 | the largest value of each column, or zero for an empty one |
| Metrics.Average | metrics/mod.go:92-112 | the quotient of the sum in 64 bits and the number of samples, for each column |
| Metrics.SumAdds | metrics/mod.go:98-103 | the sum has each value of the column once |
| Metrics.MeanIsExactIff | metrics/mod.go:98-103 | the average is the mean if and only if the sum is less than 2^64 |
| Monitor.RunKeepsInv | daemon/monitor/mod.go:79-124 | every schedule keeps: nothing lost between the goroutines, at most one sample buffered, the WaitGroup at one until the consumer is over |
| Monitor.Conservation | daemon/monitor/mod.go:79-124 | in every reachable state the samples decoded are those delivered, then held by the consumer, then buffered, then held by the producer, in order, with at most three in flight |
| Monitor.DeliveredIsCompleted | daemon/monitor/mod.go:112-121 | the i-th sample delivered is the i-th decoded, with the network figures gathered for it, or its own if the gathering failed |
| Monitor.OnlyStopOrErrorEnds | daemon/monitor/mod.go:99-112 | the consumer goes on until Stop has been called or the stream has ended |
| Monitor.ErrorNeverBlocks | daemon/monitor/mod.go:80-90 | a producer with an error can always send it |
| Monitor.ProducerStuckIff | daemon/monitor/mod.go:84-95 | the producer can come to its end unless it waits for room in the buffer after the consumer is over, and then it never does |
| Monitor.ProducerCanStick | daemon/monitor/mod.go:84-107 | a run after which Stop has returned, the producer waits and no step at all is possible |
| Monitor.NothingAfterStop | daemon/monitor/mod.go:169-183 | after Stop has returned nothing is delivered, however the run goes on |
| Monitor.StopCanReturnIff | daemon/monitor/mod.go:169-175 | without a reader, some schedule lets a called Stop return if and only if the consumer holds no sample |
| Monitor.StopReturnsIff | daemon/monitor/mod.go:99-124 | without a reader, no schedule can prevent the return of a called Stop any more if and only if the consumer is over, or it selects with an empty buffer and a producer that has failed or is gone |
| Monitor.RunWithoutReaderIsShort | daemon/monitor/mod.go:79-124 | without a reader every schedule ends, after at most eleven steps |
| Monitor.QuietStopReturns | daemon/monitor/mod.go:169-175 | so in those states a called Stop has returned when nothing moves any more |
| Monitor.ReaderLetsStopReturn | daemon/monitor/mod.go:169-175 | if somebody else reads the stream, a called Stop can always return |
| Monitor.StopCanBlock | daemon/monitor/main.go:49-54 | a run in which Stop is called while the consumer holds nothing, and the sample picked next blocks it for ever |
| Monitor.LostIsBuffered | daemon/monitor/mod.go:104-121 | once both goroutines are over, at most one sample was decoded and not delivered: the one in the buffer |
| Monitor.ErrorLosesIff | daemon/monitor/mod.go:108-111 | when the error is picked, every decoded sample is delivered in the end, however the run goes on, if and only if the buffer is empty at that moment |
| Monitor.ErrorCanLose | daemon/monitor/mod.go:104-121 | a run that loses a sample that way |
| DockerProtocol.PublishedInStep | sim/docker/io.go:257-281 | under any interleaving, a goroutine's k-th publication holds its first k samples, all but the sample in progress are published, and only the goroutine that holds the lock is between locking and unlocking |
| DockerProtocol.RecordsAreDecoded | sim/docker/io.go:257-281 | under any interleaving, the record of a goroutine is the samples that the schedule decoded for it, as they came and in their order |
| DockerProtocol.EntryIsFresh | sim/docker/io.go:274-276 | the entry of a container exists once it has a complete sample, and then holds all of them but the one in progress |
| DockerProtocol.NothingAfterCloser | sim/docker/io.go:279-282 | once the closer of a goroutine has returned, it publishes nothing any more under any interleaving |
| DockerProtocol.NothingAfterClosers | sim/docker/io.go:223-229 | once all have returned, neither the shared map nor a record changes any more |
| DockerProtocol.ClosedEntryIsComplete | sim/docker/io.go:279-282 | the entry of a closed container holds all of its samples, and keeps them |
| DockerProtocol.UnderReader | sim/docker/io.go:192-213 | while a reader has the lock, no interleaving of the goroutines changes the shared map |
| DockerIO.Append | sim/docker/io.go:265-272 | append writes only behind the last element, or into a new array, and never changes what the old header shows |
| DockerIO.DockerIO.MonitorContainer | sim/docker/io.go:244-257 | a new goroutine has five columns that share memory with nothing |
| DockerIO.DockerIO.DecodeSample | sim/docker/io.go:259-264 | a decoded sample is added to the record of its goroutine as it is, before any column has it, and to no other record |
| DockerIO.DockerIO.AppendValue | sim/docker/io.go:265-272 | appending a value to a column, in place or not, leaves everything shown by any published header as it was |
| DockerIO.DockerIO.PublishHeaders | sim/docker/io.go:274-276 | the entry under the lock becomes the headers of the goroutine, with five columns of equal length |
| DockerIO.DockerIO.Step | sim/docker/io.go:257-281 | each step in memory does what the state machine does and keeps every published header intact |
| DockerIO.DockerIO.Run | sim/docker/io.go:244-285 | so does any interleaving of any number of goroutines and a reader; copies from before show what they did, and every copy, also one made in the run, shows the samples that its goroutine had when it was made |
| DockerIO.DockerIO.ReadNode | sim/docker/io.go:207-208 | the encoder finds for a name five columns of equal length: the samples that its goroutine had when it published |
| DockerIO.DockerIO.FetchStats | sim/docker/io.go:192-213 | however the goroutines go on while the names are read, the file is the shared map as it was when the lock was taken |
| DockerIO.Measure | sim/docker/io.go:192-285 | any schedule and the file written at its end: the five columns of a container whose name is its own are those of the samples that its goroutine decoded in the schedule, as they came, without the one in progress |
| WaitLoops.CheckPodStatus | sim/kubernetes/engine.go:863-882 | ready if and only if some condition is PodReady and True and none before it is PodScheduled and False; an error exactly for such a failed scheduling, or for the first container that waits with "Error" in its reason if no condition decides; else not ready |
| WaitLoops.StatusIff | sim/kubernetes/engine.go:863-882 | the same three equivalences and the two messages, for the status used by the waiting loops |
| WaitLoops.ContainsIff | sim/kubernetes/engine.go:876 | a reason contains the word if and only if the word is at some place of it |
| WaitLoops.WaitDeployment | sim/kubernetes/engine.go:256-281 | returns at the first event after which the distinct ready pods are as many as the nodes, or fails at the first failing pod, whichever is first |
| WaitLoops.CountPasses | sim/kubernetes/engine.go:272-279 | the number of ready pods skips no value on its way up |
| WaitLoops.EqualityIsThreshold | sim/kubernetes/engine.go:276-279 | the test for equality is as good as a test for at least, for every prefix of a trace, if and only if a pod is awaited or the first event is not a ready pod |
| WaitLoops.WaitDeletion | sim/kubernetes/engine.go:610-637 | returns at the first deployment event after which every deployment named so far has been seen without replicas, or with a timeout; other events count for nothing |
| WaitLoops.NilMeansNoReplicas | sim/kubernetes/engine.go:621-634 | a nil return means that each deployment named so far has been reported with no replica, neither available nor unavailable, and that at no deployment event before was this so |
| WaitLoops.GoneBySize | sim/kubernetes/engine.go:625-631 | deployments seen gone are among those seen, so comparing sizes compares the sets |
| WaitLoops.DeletionIsUnique | sim/kubernetes/engine.go:610-637 | the events leave no choice of the outcome |
| WaitLoops.NilCoversIff | sim/kubernetes/engine.go:615-635 | a nil return means that given deployments were seen gone if and only if no event before the timeout shows all named deployments gone while a given one has yet to be named |
| WaitLoops.NilCanComeEarly | sim/kubernetes/engine.go:631-634 | events for which the loop returns before a deployment is gone |
| FanOut.RunKeepsInv | sim/kubernetes/engine.go:292-316 | every schedule keeps: the WaitGroup counts the workers that are not over, and the channel holds the error of each worker that sent one, once |
| FanOut.NoWorkerBlocks | sim/kubernetes/engine.go:295-307 | a worker with an error can always send it: the channel is open and has room |
| FanOut.RoundResult | sim/kubernetes/engine.go:309-320 | waiting ends only when all workers are over, and the call returns nil if and only if all succeeded, else the error of one of them |
| FanOut.RoundReturns | sim/kubernetes/engine.go:292-320 | in terms of what the calls of the workers returned in the schedule: nil if and only if none of them returned an error, and all have returned, else one of their errors |
| FanOut.AlwaysProgress | sim/kubernetes/engine.go:292-316 | no schedule gets stuck before the call returns |
| FanOut.ScheduleEnds | sim/kubernetes/engine.go:292-316 | no schedule is longer than three steps for each pod and three more, so every one that cannot go on has returned |
| FanOut.UploadResult | sim/kubernetes/engine.go:343-402 | no netem worker exists unless every hosts file was written, and the upload returns nil exactly if all workers of both rounds succeeded |
| FanOut.UploadReturns | sim/kubernetes/engine.go:343-402 | the same of the whole upload: the second round starts only if each write has returned nil, and the upload returns nil if and only if no call of either round returned an error, else one of those errors |
| FanOut.UploadEnds | sim/kubernetes/engine.go:343-402 | no schedule of both rounds is longer than six steps for each pod and seven more, and every one that cannot go on has returned |
| LinkState.FindPod | sim/kubernetes/engine.go:711-719 | finds a pod with the label exactly if there is one |
| LinkState.ReadDropLine | sim/kubernetes/engine.go:776-790 | the shell reads back from the joined insertions exactly the addresses of the targets, in order |
| LinkState.KubeEngine.Disconnect | sim/kubernetes/engine.go:776-803 | a cut of known nodes inserts the addresses of its targets in the source's chain; reported is the first unknown target, or else an unknown source, which change nothing, or else how the command fared |
| LinkState.KubeEngine.Reconnect | sim/kubernetes/engine.go:805-822 | restoring empties the chain of the node; reported is an unknown node, which changes nothing, or how the command fared |
| LinkState.ReportIsUnique | sim/kubernetes/engine.go:776-822 | what the two report is determined by the pods, the call and how the command fared |
| LinkState.EffectOnChain | sim/kubernetes/engine.go:776-822 | whether a pod drops another after one call, from whether it did before |
| LinkState.KubeEngine.Perform | sim/kubernetes/engine.go:776-822 | a sequence of calls leaves the chains that the calls make one after the other, and reports for each what its nodes and its command call for |
| LinkState.LinkState | sim/kubernetes/engine.go:776-822 | after any sequence of calls with any outcomes, from any chains, s drops t if and only if some call with known nodes came as far as cutting the link and none restored s since, or it was dropped at the start and never restored |
| LinkState.PerformOnCluster | sim/kubernetes/engine.go:776-822 | an engine that is new on a cluster then drops exactly the links that are cut |
| LinkState.OthersUntouched | sim/kubernetes/engine.go:776-822 | a refused call changes nothing, and no call changes the chain of a pod other than its source |
| Simplot.ProcessTags | metrics/simplot/usageplot.go:92-103 | for every order of the loop, the tags of each second are joined with commas in that order, and only the seconds of tags appear, with the billion nanoseconds of a second written out |
| Simplot.TagConservation | metrics/simplot/usageplot.go:92-103 | each tag is exactly once in the bucket of the second of its nanoseconds, truncated toward zero, and in no other |
| Simplot.OrderOnlyPermutes | metrics/simplot/usageplot.go:94-101 | another order of the loop gives the same tags in each second |
| Simplot.Ticks | metrics/simplot/usageplot.go:120-140 | tick i is the second min + i, labelled with its tags if it has any and with `+is` if not; tags outside the axis are dropped |
| Simplot.LastTick | metrics/simplot/usageplot.go:121-124 | on every axis that does not go back, where the last tick is: at the second of the right end, one before or one behind it, by what truncation takes from the two ends |
| Simplot.TimeAxis | metrics/simplot/usageplot.go:80-82 | the labels of the axis, from the raw tags |
| Simplot.Int2Human | metrics/simplot/mod.go:212-220 | the text is the scaled value with two decimals in six places, and the unit: B up to 1024, KiB up to 1024^2, MiB up to 1024^3 and GiB above |
| Simplot.Fixed2IsNearest | metrics/simplot/mod.go:219 | the two decimals are the nearest number of hundredths, ties to even |
| Simplot.ScaledIsUnique | metrics/simplot/mod.go:212-220 | there is only one way to scale a value to at most 1024 with the smallest suffix |
| Simplot.HumanEndsIff | metrics/simplot/mod.go:212-217 | the loop ends if and only if the value is at most 1024^4; above, its guard holds after any number of turns |

## Left out

- Floating point: coordinates, losses, sizes and axis bounds are reals; rounding and the overflow of a duration or a distance are not modelled.
- Latency.Millis: is over reals, so the rounding of the square root in floating point is not captured.
- Simplot.Int2Human: requires a value for which the loop ends, because a method that does not end has no result; the other half is HumanEndsIff.
- Simplot.Ticks: requires that the number of ticks is not negative, as the making of the slice does.
- Area.AreaTopology.constructor: requires counts that are not negative; a negative count panics.
- Executor.CompilerCorrect: assumes a device name that is one word and addresses without blanks; a blank would shift the arguments of a command.
- Addresses: a host is any word without a slash; the syntax of IP addresses is not modelled.
- Empty arguments: the printed netem part can hold two blanks when a delay is absent; the device ignores the empty argument between them.
- Areas that are changed from outside after the topology has been built from them are not modelled.
- Metrics.NewNodeStats: a character stands for a byte; an error of the reader is not modelled.
- Metrics.Average: the sums and quotients in floating point are not rounded.
- Metrics.MeanIsExactIff: is over reals, so it does not count the rounding of sums above 2^53.
- Metrics.WriteAndRead: assumes values in the ranges of their Go types.
- Monitor: what a sample contains and how the network figures are gathered; the clock; a second call of Start or Stop, which panics.
- DockerIO.DockerIO.Run: `Tag`, the timestamp of the statistics and the encoding of the file are left out; the closing of a stream is the failure of its next read.
- DockerIO.Append: how much capacity the runtime adds is arbitrary.
- WaitLoops.WaitDeployment: a closed channel and events that do not carry a pod make the program panic and are not modelled.
- FanOut: the texts of the errors and the pipe between the encoder and the command.
- LinkState.KubeEngine.Disconnect: the cluster is the chain of each pod; other rules of a pod, and the other chains that a flush empties, are not modelled.
- LinkState.LinkState: for pods with distinct names, labels and addresses.
- JSON, tar streams, log streaming, VPN and router processes, object builders, plots, the command line, `CloudTopology` and `StdDev`: plumbing, constants or libraries, with no property beyond what they call.
