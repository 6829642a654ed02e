# CloudSim network datacenter core, modelled in Dafny

This project models the network and utilisation core of a power-aware CloudSim
container datacenter. It has four parts.

- **First-fit placement.** `VmAllocationPolicySimpler.findHostForGuest` scans the
  host list in order and returns the first host that accepts the guest.
- **Trace-backed utilisation.** `UtilizationModelMicroservices` holds one CPU
  sample every 5 seconds, divided by the service's processor count. It answers
  `getUtilization(time)` in three ways:
  - it clamps to the last sample beyond the trace;
  - it returns a sample directly when `time` is a multiple of the interval;
  - otherwise it interpolates between the two samples around `time`.
- **The networked host.** `PowerNetworkHost.sendPackets` works in two passes.
  - First pass: every packet queued on the NICs, NIC by NIC, is either delivered
    to a resident guest's cloudlet (stamped with the clock) or buffered under its
    sender.
  - Second pass: every buffered packet is credited to the datacenter's byte
    counter and sent to the edge switch. Its delay shares the sender's bandwidth
    among the sender's packets.

  `updateCloudletsProcessing` runs the packet pass first. It then adds up the
  guests' MIPS into the host's utilisation: a guest migrating away gets its
  MIPS divided by 0.9. It records one history entry per guest and one for the
  host.
- **The datacenter topology.** `PowerContainerNetworkDatacenter` covers:
  - switch registration;
  - the three-level switch tree (edge, aggregate, root) and its level rules;
  - attaching hosts to edge switches;
  - the guest→switch and guest→host maps kept when a guest is created;
  - the cloudlet NIC registration when a cloudlet is submitted.

The Dafny modules follow the Java sources.

| module | file | models |
|---|---|---|
| `Wrappers` | `wrappers.dfy` | `Option`, `Outcome` and `Result`; an exception becomes `Fail`/`Err` |
| `VmAllocationPolicySimpler` | `placement.dfy` | first-fit search, as a function |
| `Utilization` | `utilization.dfy` | the query (`UtilizationAt`), Java's casts and IEEE cases, the class, and the two findings below |
| `Routing` | `routing.dfy` | the packet datatypes and specification functions for both passes of `sendPackets`, with their lemmas |
| `HostAccounting` | `accounting.dfy` | specification functions for the MIPS accounting of `updateCloudletsProcessing`, with their lemmas |
| `NetworkDatacenter` | `datacenter.dfy` | the classes `PowerSwitch`, `PowerNetworkHost` and `PowerContainerNetworkDatacenter`; they refer to each other, so they share one module |

The imperative parts of the host and the datacenter are methods on classes.
Their loops are proved against the specification functions of `Routing` and
`HostAccounting`. The properties the source promises are proved as lemmas about
those functions.

Java `HashMap` iteration order is not defined. The model turns it into a
parameter:
- `nicOrder` is the order of `nics.values()`;
- `senderOrder` is the order of `sendPktExternally.keySet()` after the first pass.

`Enumerates` requires each order to list every key exactly once. Object identity
among NICs, guests and packets is carried by ids.

## Model

| member | source | states |
|---|---|---|
| VmAllocationPolicySimpler.FindHostForGuest | simulators/cloudsim/modules/cloudsim/src/main/java/org/cloudbus/cloudsim/VmAllocationPolicySimpler.java:36-46 | The host found is suitable and in the list, and every host before it is unsuitable. No host is found exactly when no host is suitable. |
| VmAllocationPolicySimpler.FirstSuitableIsFound | simulators/cloudsim/modules/cloudsim/src/main/java/org/cloudbus/cloudsim/VmAllocationPolicySimpler.java:38-43 | A suitable host whose predecessors are all unsuitable is exactly the host returned. |
| VmAllocationPolicySimpler.FirstFitOfConcatenation | simulators/cloudsim/modules/cloudsim/src/main/java/org/cloudbus/cloudsim/VmAllocationPolicySimpler.java:38-45 | On the list `front + back`, the answer is the one for `front` if `front` has a suitable host, and otherwise the one for `back`. |
| Utilization.JavaInt | simulators/cloudsim/modules/cloudsim/src/main/java/org/cloudbus/cloudsim/UtilizationModelMicroservices.java:54 | Java's `(int)` of a non-negative double: the floor, saturated at Integer.MAX_VALUE, which is reached exactly from MAX_VALUE up. |
| Utilization.Ceiling | simulators/cloudsim/modules/cloudsim/src/main/java/org/cloudbus/cloudsim/UtilizationModelMicroservices.java:63 | `Math.ceil` as an integer: the least integer not below its argument. |
| Utilization.UtilizationAt | simulators/cloudsim/modules/cloudsim/src/main/java/org/cloudbus/cloudsim/UtilizationModelMicroservices.java:52-66 | The query as written. An empty trace always fails with an index error. Only an interval strictly between 0 and 1 s can divide by zero. Outside the interpolation branch the value returned is one of the samples. The lemmas below state each branch. |
| Utilization.ClampsBeyondTrace | simulators/cloudsim/modules/cloudsim/src/main/java/org/cloudbus/cloudsim/UtilizationModelMicroservices.java:54-57 | Any time whose floor index reaches the last sample returns the last sample. |
| Utilization.ExactAtSamples | simulators/cloudsim/modules/cloudsim/src/main/java/org/cloudbus/cloudsim/UtilizationModelMicroservices.java:54-61 | With a whole-second interval, querying at the time of sample k returns sample k, provided k·interval is at most Integer.MAX_VALUE. Past that the `(int)` cast saturates and the source no longer reads sample k. |
| Utilization.InterpolationIndices | simulators/cloudsim/modules/cloudsim/src/main/java/org/cloudbus/cloudsim/UtilizationModelMicroservices.java:54-64 | In the interpolation branch the before and after indices are consecutive, both within the trace. |
| Utilization.ObservedSlope | simulators/cloudsim/modules/cloudsim/src/main/java/org/cloudbus/cloudsim/UtilizationModelMicroservices.java:63-65 | When the samples either side of the time differ, the slope as written is always -1/interval, whatever the samples are. |
| Utilization.EqualNeighboursGiveNaN | simulators/cloudsim/modules/cloudsim/src/main/java/org/cloudbus/cloudsim/UtilizationModelMicroservices.java:63-65 | When those two samples are equal, the slope is 0/0 and the query returns NaN. |
| Utilization.ZeroProcessorModelIsIdle | simulators/cloudsim/modules/cloudsim/src/main/java/org/cloudbus/cloudsim/UtilizationModelMicroservices.java:34-37 | A model built for zero processors reports utilisation 0 at every time. |
| Utilization.DirectHitTruncatesInterval | simulators/cloudsim/modules/cloudsim/src/main/java/org/cloudbus/cloudsim/UtilizationModelMicroservices.java:59-61 | Counterexample: interval 2.5 at time 10 returns sample 5, though 10 is the time of sample 4. |
| Utilization.DirectHitDividesByZero | simulators/cloudsim/modules/cloudsim/src/main/java/org/cloudbus/cloudsim/UtilizationModelMicroservices.java:59-61 | Counterexample: interval 0.5 at time 0.5 divides by zero. |
| Utilization.DirectHitOverrunsTrace | simulators/cloudsim/modules/cloudsim/src/main/java/org/cloudbus/cloudsim/UtilizationModelMicroservices.java:59-61 | Counterexample: six samples every 1.5 s, queried at 6 s (sample 4), compute index 6 and fail with an index error. |
| Utilization.InterpolationLeavesBracket | simulators/cloudsim/modules/cloudsim/src/main/java/org/cloudbus/cloudsim/UtilizationModelMicroservices.java:63-65 | Counterexample: halfway between samples 0.2 and 0.4 the query returns -0.3. |
| Utilization.IntendedExactAtSamples | simulators/cloudsim/modules/cloudsim/src/main/java/org/cloudbus/cloudsim/UtilizationModelMicroservices.java:54-61 | The corrected query returns sample k at the time of sample k, for every positive interval. |
| Utilization.IntendedWithinSampleRange | simulators/cloudsim/modules/cloudsim/src/main/java/org/cloudbus/cloudsim/UtilizationModelMicroservices.java:52-66 | The corrected query stays within [lo, hi] whenever every sample does. |
| Utilization.UtilizationModelMicroservices.constructor | simulators/cloudsim/modules/cloudsim/src/main/java/org/cloudbus/cloudsim/UtilizationModelMicroservices.java:29-49 | Zero processors: the data is [0.0] and the interval stays 0. Otherwise the interval is 5 s and sample i is trace line i divided by the processor count. |
| Utilization.UtilizationModelMicroservices.GetUtilization | simulators/cloudsim/modules/cloudsim/src/main/java/org/cloudbus/cloudsim/UtilizationModelMicroservices.java:52-66 | The query over the model's samples and interval. With an interval of at least 1 s (the 5 s of the traces) it never divides by zero, and with no samples it always fails. |
| Utilization.UtilizationModelMicroservices.GetSchedulingInterval | simulators/cloudsim/modules/cloudsim/src/main/java/org/cloudbus/cloudsim/UtilizationModelMicroservices.java:82-84 | Returns the interval. SetSchedulingInterval's contract states that it returns the interval last set. |
| Utilization.UtilizationModelMicroservices.SetSchedulingInterval | simulators/cloudsim/modules/cloudsim/src/main/java/org/cloudbus/cloudsim/UtilizationModelMicroservices.java:73-84 | After setting, the getter returns the new interval and the samples are unchanged. |
| Routing.GuestById | simulators/cloudsim/modules/cloudsim/src/main/java/org/cloudbus/cloudsim/power/PowerNetworkHost.java:152 | The guest found is the FIRST guest in the list with the id: every guest before it has another id. None is returned exactly when no guest has that id. |
| Routing.DeliveredTo | simulators/cloudsim/modules/cloudsim/src/main/java/org/cloudbus/cloudsim/power/PowerNetworkHost.java:153-158 | Defines the stamped packets each inbox receives. EveryPacketRouted and DeliveriesAreLocal state which packets these are, in both directions. |
| Routing.RoutedNics | simulators/cloudsim/modules/cloudsim/src/main/java/org/cloudbus/cloudsim/power/PowerNetworkHost.java:150-165 | Defines the NICs after the first pass: every queue emptied and every inbox extended by its deliveries. RouteQueued and SendPackets are proved to produce it. |
| Routing.RoutedExternal | simulators/cloudsim/modules/cloudsim/src/main/java/org/cloudbus/cloudsim/power/PowerNetworkHost.java:159-162 | Defines the external buffer after the first pass: each sender's list extended by the packets it sends off the host. ForwardsAreExternal and EveryPacketRouted characterise it, and RouteQueued is proved to produce it. |
| Routing.Dispatched | simulators/cloudsim/modules/cloudsim/src/main/java/org/cloudbus/cloudsim/power/PowerNetworkHost.java:169-185 | Defines the sends of the second pass, sender by sender. EveryBufferedPacketSent and OnlyBufferedPacketsSent characterise it in both directions, and SentPayloadOfDispatched gives its bytes. |
| Routing.PassFault | simulators/cloudsim/modules/cloudsim/src/main/java/org/cloudbus/cloudsim/power/PowerNetworkHost.java:147-193 | Defines the exception `sendPackets` raises: a missing NIC in the first pass, otherwise the second pass's fault. MissingNicIff and DispatchFaultIff state when each arises, and SendPackets is proved to fail exactly with it. |
| Routing.FirstMissingNic | simulators/cloudsim/modules/cloudsim/src/main/java/org/cloudbus/cloudsim/power/PowerNetworkHost.java:152-158 | Defines the first local packet whose cloudlet has no NIC, where `nics.get(...)` throws. MissingNicIff states when it arises and which packet it names. FirstMissingNicConcat splits it over consecutive queues, and RoutePackets is proved to stop exactly there. |
| Routing.Delay | simulators/cloudsim/modules/cloudsim/src/main/java/org/cloudbus/cloudsim/power/PowerNetworkHost.java:177-178 | Defines the delay of one packet: 8·data over the bandwidth share, plus the overhead. DelaySharesBandwidth restates it as 8·data·flows/bw + overhead, the sender's bandwidth split equally among its packets. |
| Routing.SenderFault | simulators/cloudsim/modules/cloudsim/src/main/java/org/cloudbus/cloudsim/power/PowerNetworkHost.java:170-183 | Defines the exception of one sender. A sender that is not a guest fails first. Then, only when it has packets, a missing datacenter (line 180) or a missing switch (line 183) fails. SendFrom is proved to fail exactly with it. |
| Routing.DispatchFault | simulators/cloudsim/modules/cloudsim/src/main/java/org/cloudbus/cloudsim/power/PowerNetworkHost.java:169-185 | Defines the exception of the second pass: the first sender in iteration order that has a fault. DispatchFaultIff states when it arises, DispatchFaultOfPrefix states that later senders cannot override it, and SendExternally is proved to fail exactly with it. |
| Routing.EveryPacketRouted | simulators/cloudsim/modules/cloudsim/src/main/java/org/cloudbus/cloudsim/power/PowerNetworkHost.java:150-163 | A queued packet with a resident receiver reaches its cloudlet's inbox, stamped with the clock. Any other packet is buffered under its sender, wrapped with the host id. |
| Routing.DeliveriesAreLocal | simulators/cloudsim/modules/cloudsim/src/main/java/org/cloudbus/cloudsim/power/PowerNetworkHost.java:153-158 | An inbox receives only stamped copies of queued packets whose receiver is resident and whose receiving cloudlet owns that inbox. |
| Routing.ForwardsAreExternal | simulators/cloudsim/modules/cloudsim/src/main/java/org/cloudbus/cloudsim/power/PowerNetworkHost.java:159-162 | A sender's buffer receives only that sender's queued packets whose receiver is not resident, each tagged with this host's id. |
| Routing.MissingNicIff | simulators/cloudsim/modules/cloudsim/src/main/java/org/cloudbus/cloudsim/power/PowerNetworkHost.java:153-158 | The first pass fails exactly when some packet with a local receiver names a cloudlet that has no NIC on the host. |
| Routing.AnyLocalAppend | simulators/cloudsim/modules/cloudsim/src/main/java/org/cloudbus/cloudsim/power/PowerNetworkHost.java:148-154 | Appending one packet sets the local flag exactly when the flag was already set or the packet is local. RoutePackets and RouteQueued build on this to prove that the flag is `AnyLocal` of the queues. |
| Routing.RoutingConcat | simulators/cloudsim/modules/cloudsim/src/main/java/org/cloudbus/cloudsim/power/PowerNetworkHost.java:150-165 | Splitting the queues into consecutive runs adds up deliveries, forwards, senders and the local flag. |
| Routing.FirstMissingNicConcat | simulators/cloudsim/modules/cloudsim/src/main/java/org/cloudbus/cloudsim/power/PowerNetworkHost.java:150-165 | The first missing NIC of a concatenation is that of its front, if any. |
| Routing.DelaySharesBandwidth | simulators/cloudsim/modules/cloudsim/src/main/java/org/cloudbus/cloudsim/power/PowerNetworkHost.java:177-178 | Delay is 8·bytes·flows/bw plus the virtualisation overhead. |
| Routing.SendsForEach | simulators/cloudsim/modules/cloudsim/src/main/java/org/cloudbus/cloudsim/power/PowerNetworkHost.java:175-184 | A sender's packets give one send each, in list order, each with its shared-bandwidth delay. |
| Routing.EveryBufferedPacketSent | simulators/cloudsim/modules/cloudsim/src/main/java/org/cloudbus/cloudsim/power/PowerNetworkHost.java:169-185 | Every packet buffered under a listed sender is sent to the switch, with bandwidth shared among that sender's packets. |
| Routing.OnlyBufferedPacketsSent | simulators/cloudsim/modules/cloudsim/src/main/java/org/cloudbus/cloudsim/power/PowerNetworkHost.java:169-185 | Every send carries a packet buffered under some listed sender, with that sender's delay. |
| Routing.DispatchFaultIff | simulators/cloudsim/modules/cloudsim/src/main/java/org/cloudbus/cloudsim/power/PowerNetworkHost.java:170-183 | The second pass completes exactly when two things hold. Every sender is a guest. Either the host has both a datacenter and a switch, or no sender has packets. |
| Routing.SentPayloadOfDispatched | simulators/cloudsim/modules/cloudsim/src/main/java/org/cloudbus/cloudsim/power/PowerNetworkHost.java:175-184 | The bytes sent are the bytes buffered, sender by sender. |
| Routing.TransferredIsExternalPayload | simulators/cloudsim/modules/cloudsim/src/main/java/org/cloudbus/cloudsim/power/PowerNetworkHost.java:150-185 | Starting from an empty buffer, the counter grows by exactly the bytes of the queued packets that leave the host. Each is counted once and no local byte is counted. |
| Routing.DispatchFaultOfPrefix | simulators/cloudsim/modules/cloudsim/src/main/java/org/cloudbus/cloudsim/power/PowerNetworkHost.java:169-173 | A fault met partway through the senders is the fault of the whole pass. |
| HostAccounting.Charged | simulators/cloudsim/modules/cloudsim/src/main/java/org/cloudbus/cloudsim/power/PowerNetworkHost.java:108-130 | With a non-negative allocation, a guest adds at least its allocation and at most the allocation divided by 0.9. It adds exactly its allocation unless it is migrating away with a non-zero allocation. |
| HostAccounting.UtilizationMips | simulators/cloudsim/modules/cloudsim/src/main/java/org/cloudbus/cloudsim/power/PowerNetworkHost.java:85-132 | Defines the host's utilisation after the guest loop, summed in list order. AccountGuests is proved to produce it, and UtilizationBounds and NoMigrationNoPenalty bound it. |
| HostAccounting.GuestEntries | simulators/cloudsim/modules/cloudsim/src/main/java/org/cloudbus/cloudsim/power/PowerNetworkHost.java:108-122 | Defines the guest history entries of one tick. GuestEntriesExact states which entries these are, in both directions. |
| HostAccounting.EntryOf | simulators/cloudsim/modules/cloudsim/src/main/java/org/cloudbus/cloudsim/power/PowerNetworkHost.java:117-121 | Defines one guest's history entry: the time, the allocation, the request, and the migration flag (in migration and not migrating in). GuestEntriesExact states that these are exactly the entries recorded. |
| HostAccounting.HostEntry | simulators/cloudsim/modules/cloudsim/src/main/java/org/cloudbus/cloudsim/power/PowerNetworkHost.java:134-138 | Defines the host history entry. HostActiveIffAllocated states when it is active. |
| HostAccounting.UtilizationBounds | simulators/cloudsim/modules/cloudsim/src/main/java/org/cloudbus/cloudsim/power/PowerNetworkHost.java:123-130 | Utilisation lies between the allocated MIPS and the allocated MIPS divided by 0.9. |
| HostAccounting.NoMigrationNoPenalty | simulators/cloudsim/modules/cloudsim/src/main/java/org/cloudbus/cloudsim/power/PowerNetworkHost.java:123-130 | With no guest migrating away, the utilisation equals the allocated MIPS. |
| HostAccounting.GuestEntriesExact | simulators/cloudsim/modules/cloudsim/src/main/java/org/cloudbus/cloudsim/power/PowerNetworkHost.java:108-122 | Each guest not migrating in gets one entry: the time, the allocation before the penalty, the request and its migrating-away flag. Other guests get none. |
| HostAccounting.HostActiveIffAllocated | simulators/cloudsim/modules/cloudsim/src/main/java/org/cloudbus/cloudsim/power/PowerNetworkHost.java:130-138 | With non-negative allocations, the host is recorded active exactly when some guest got MIPS. |
| HostAccounting.AllocatedPositiveIff | simulators/cloudsim/modules/cloudsim/src/main/java/org/cloudbus/cloudsim/power/PowerNetworkHost.java:130 | Non-negative allocations sum to something non-negative, and to something positive exactly when one of them is positive. |
| NetworkDatacenter.LinkRule | simulators/cloudsim/modules/cloudsim/src/main/java/org/cloudbus/cloudsim/container/core/PowerContainerNetworkDatacenter.java:186-210 | An uplink is made exactly when sw2 is one level above sw1, and a downlink exactly when it is one below. Two aggregate switches give the same-level error. |
| NetworkDatacenter.Ground | simulators/cloudsim/modules/cloudsim/src/main/java/org/cloudbus/cloudsim/container/core/PowerContainerNetworkDatacenter.java:114-116 | Walking up the nesting chain ends at a non-virtual host, and a non-virtual host is its own end. |
| NetworkDatacenter.GroundIgnoresDepth | simulators/cloudsim/modules/cloudsim/src/main/java/org/cloudbus/cloudsim/container/core/PowerContainerNetworkDatacenter.java:114-116 | Where the chain ends does not depend on the bound used to show that it ends. |
| NetworkDatacenter.Registered | simulators/cloudsim/modules/cloudsim/src/main/java/org/cloudbus/cloudsim/container/core/PowerContainerNetworkDatacenter.java:155-159 | The switch's id is added. Switches already registered are kept, and a new id maps to the switch. |
| NetworkDatacenter.RegisteredIdempotent | simulators/cloudsim/modules/cloudsim/src/main/java/org/cloudbus/cloudsim/container/core/PowerContainerNetworkDatacenter.java:155-159 | Registering a second switch with an id already present changes nothing. |
| NetworkDatacenter.CreditAsWritten | simulators/cloudsim/modules/cloudsim/src/main/java/org/cloudbus/cloudsim/power/PowerNetworkHost.java:180 | The crediting as written. With a `NetworkDatacenter`, the field that class declares gains the payload sent. Otherwise the first packet throws. The field the datacenter declares itself is never changed. |
| NetworkDatacenter.OwnCounterMissesExternalPayload | simulators/cloudsim/modules/cloudsim/src/main/java/org/cloudbus/cloudsim/power/PowerNetworkHost.java:180 | Counterexample: one 1000-byte packet sent off the host leaves the datacenter's own counter at 0 (or faults), under either class the cast can meet. |
| NetworkDatacenter.PowerSwitch.constructor | simulators/cloudsim/modules/cloudsim/src/main/java/org/cloudbus/cloudsim/container/core/PowerContainerNetworkDatacenter.java:166-170 | A new switch has its id and level, no links and no hosts. The switch's own source is not part of this model. |
| NetworkDatacenter.PowerNetworkHost.constructor | simulators/cloudsim/modules/cloudsim/src/main/java/org/cloudbus/cloudsim/power/PowerNetworkHost.java:53-66 | A new host has no NICs, an empty external buffer, no switch and no datacenter. |
| NetworkDatacenter.PowerNetworkHost.RouteQueued | simulators/cloudsim/modules/cloudsim/src/main/java/org/cloudbus/cloudsim/power/PowerNetworkHost.java:150-165 | It fails at the first local packet without a NIC. Otherwise every queue is emptied, the inboxes and the buffer are as `RoutedNics`/`RoutedExternal` give them, and the flag is `AnyLocal`. |
| NetworkDatacenter.PowerNetworkHost.RouteNic | simulators/cloudsim/modules/cloudsim/src/main/java/org/cloudbus/cloudsim/power/PowerNetworkHost.java:151-164 | One NIC's queue is routed and then cleared. |
| NetworkDatacenter.PowerNetworkHost.RoutePackets | simulators/cloudsim/modules/cloudsim/src/main/java/org/cloudbus/cloudsim/power/PowerNetworkHost.java:151-163 | One queue's packets are delivered or buffered in order. It stops at the first missing NIC. |
| NetworkDatacenter.PowerNetworkHost.RoutePacket | simulators/cloudsim/modules/cloudsim/src/main/java/org/cloudbus/cloudsim/power/PowerNetworkHost.java:152-162 | One packet. It is local exactly when its receiver is a guest here (`IsLocal`), and it faults exactly when it is local and its cloudlet has no NIC. Otherwise a local packet is appended, stamped, to its cloudlet's inbox and any other is added to its sender's buffer, creating the list if absent. Nothing else changes. |
| NetworkDatacenter.PowerNetworkHost.SendExternally | simulators/cloudsim/modules/cloudsim/src/main/java/org/cloudbus/cloudsim/power/PowerNetworkHost.java:169-185 | The fault is `DispatchFault`. On success with a datacenter, the counter grows by the payload sent. With a switch as well, the sends are `Dispatched`. Without either, nothing is sent and the counter is unchanged. |
| NetworkDatacenter.PowerNetworkHost.SendFrom | simulators/cloudsim/modules/cloudsim/src/main/java/org/cloudbus/cloudsim/power/PowerNetworkHost.java:170-184 | One sender: not-a-guest, missing-datacenter and missing-switch faults, its sends, and the counter update. |
| NetworkDatacenter.PowerNetworkHost.SendBuffered | simulators/cloudsim/modules/cloudsim/src/main/java/org/cloudbus/cloudsim/power/PowerNetworkHost.java:175-184 | One sender's packets are credited and then sent, in order, each with its shared-bandwidth delay. |
| NetworkDatacenter.PowerNetworkHost.SendPackets | simulators/cloudsim/modules/cloudsim/src/main/java/org/cloudbus/cloudsim/power/PowerNetworkHost.java:147-193 | It fails exactly with `PassFault`. On success, the NICs are routed, the buffer is cleared, and a re-run happens exactly when some packet was local. The counter grows by the payload sent. The sends are `Dispatched` with a datacenter and a switch, and empty without either. |
| NetworkDatacenter.PowerNetworkHost.AccountGuests | simulators/cloudsim/modules/cloudsim/src/main/java/org/cloudbus/cloudsim/power/PowerNetworkHost.java:85-132 | The guest loop leaves the utilisation, the guest entries and the requested sum as `HostAccounting` defines them. |
| NetworkDatacenter.PowerNetworkHost.UpdateCloudletsProcessing | simulators/cloudsim/modules/cloudsim/src/main/java/org/cloudbus/cloudsim/power/PowerNetworkHost.java:69-141 | The utilisation the superclass's update left behind becomes the previous value, and a packet fault is passed on. Otherwise it records the history entries and utilisation and returns the superclass's time. It also carries SendPackets' guarantees on NICs, buffer, sends and counter. |
| NetworkDatacenter.PowerContainerNetworkDatacenter.constructor | simulators/cloudsim/modules/cloudsim/src/main/java/org/cloudbus/cloudsim/container/core/PowerContainerNetworkDatacenter.java:81-93 | All four maps start empty and the byte counter starts at 0. |
| NetworkDatacenter.PowerContainerNetworkDatacenter.GetEdgeSwitch | simulators/cloudsim/modules/cloudsim/src/main/java/org/cloudbus/cloudsim/container/core/PowerContainerNetworkDatacenter.java:144-153 | It returns exactly the registry entries whose switch is at edge level, with their keys and switches. |
| NetworkDatacenter.PowerContainerNetworkDatacenter.RegisterSwitch | simulators/cloudsim/modules/cloudsim/src/main/java/org/cloudbus/cloudsim/container/core/PowerContainerNetworkDatacenter.java:155-159 | The registry becomes `Registered(old registry, sw)`. |
| NetworkDatacenter.PowerContainerNetworkDatacenter.AttachSwitchToHost | simulators/cloudsim/modules/cloudsim/src/main/java/org/cloudbus/cloudsim/container/core/PowerContainerNetworkDatacenter.java:161-174 | It succeeds exactly when the switch is registered, the host belongs to the datacenter and the switch is at edge level. Each error arises exactly under its condition and changes nothing. On success the switch, the host map and the host's switch link up. |
| NetworkDatacenter.PowerContainerNetworkDatacenter.AttachSwitchToSwitch | simulators/cloudsim/modules/cloudsim/src/main/java/org/cloudbus/cloudsim/container/core/PowerContainerNetworkDatacenter.java:176-211 | Unregistered switches give an error, and switches already linked give no change. Otherwise the `LinkRule` error, or a link in both directions. A well-wired registered tree stays well wired. |
| NetworkDatacenter.PowerContainerNetworkDatacenter.Link | simulators/cloudsim/modules/cloudsim/src/main/java/org/cloudbus/cloudsim/container/core/PowerContainerNetworkDatacenter.java:190-191 | The lower switch gains the uplink and the upper one the downlink. Adding an absent link keeps the wiring layered, symmetric and free of repeats. |
| NetworkDatacenter.PowerContainerNetworkDatacenter.ProcessVmCreate | simulators/cloudsim/modules/cloudsim/src/main/java/org/cloudbus/cloudsim/container/core/PowerContainerNetworkDatacenter.java:107-121 | An unplaced guest changes nothing. A placed guest maps to the edge switch and id of the first physical host up its nesting chain. The two failure cases change nothing. |
| NetworkDatacenter.PowerContainerNetworkDatacenter.ProcessCloudletSubmit | simulators/cloudsim/modules/cloudsim/src/main/java/org/cloudbus/cloudsim/container/core/PowerContainerNetworkDatacenter.java:124-135 | The submit time is recorded. The cloudlet's NIC is put on its guest's host, nothing else of the host changes, and a missing host is an error. |

## Left out

- Reading the trace file: the constructor takes the parsed lines as `trace`. File I/O, number parsing and their exceptions are not modelled.
- Floating point: `double` is modelled as `real`, and the IEEE effects that decide a branch are written out (the NaN and infinities of a zero interval, 0/0). Rounding is not modelled.
- `UtilizationAt` requires a non-negative time and interval. The source's callers pass simulation times, and the interval is 0 or 5.
- The bandwidth of a sender is required to be positive (`PositiveBandwidth`). A zero bandwidth gives an infinite delay in Java; that is not modelled.
- `HashMap` iteration orders are parameters, required to list each key once. A `ConcurrentModificationException` cannot arise in this code and is not modelled.
- After an exception inside `sendPackets`, the state is left unspecified: the model states only which exception is raised. The part-way updates are not modelled.
- The superclass calls (`super.updateCloudletsProcessing`, `super.processVmCreate`, `super.processCloudletSubmit`) are outside the model. Their results are parameters: `smallerTime` and the utilisation it leaves behind (`superUtilizationMips`), the placement map and the host found by the allocation policy.
- The guest scheduler's deallocation and reallocation are outside the model. The MIPS each guest was allocated afterwards is the parameter `mips`.
- `CloudSim.send`, `sendNow` and the guests' own `updateCloudletsProcessing` calls are not modelled as events. The sends are returned as a list of `Send` values, and the re-run as the flag `reran`.
- Logging is not modelled, including the `Log.isDisabled` branch, which only writes.
- The cast of the host's datacenter to `NetworkDatacenter` (PowerNetworkHost.java:180) is not modelled in the host. On success the host credits the `totalDataTransfer` the datacenter declares itself, the counter of the bytes sent through its network. As written, the source credits a different field or throws; see Findings, and `CreditAsWritten` for the code as written. A missing datacenter or switch is the `NoDatacenter` or `NoEdgeSwitch` fault.
- The casts of the event data to a guest or a cloudlet, and of a host to a networked host, are not modelled. The cloudlet's id, NIC and host are parameters.
- `addStateHistoryEntry` is not modelled: its entries are returned as values.
- NICs are values in a map, not shared objects. The inbox of a cloudlet is updated through its map entry.
- `attachSwitchToHost` identifies the host by reference in `getHostList().contains`. Packets and NICs are identified by ids.
- PowerSwitch's own event handling and its class source are not part of this model. A switch is its id, level, link lists and host map.
- NetworkDatacenter.PowerContainerNetworkDatacenter.AttachSwitchToSwitch: the guarantee that well-wired switches stay well wired is stated only when the registry holds both argument objects under their ids (`Holds`). The source does not check that the registered switch is the argument object.
- NetworkDatacenter.PowerContainerNetworkDatacenter.ProcessVmCreate: the nesting chain is required to end (`Grounded`, with a ghost bound `depth`). A cyclic chain, on which the source loops forever, is not modelled.
- Utilization.UtilizationModelMicroservices.GetUtilization keeps the query as written. The corrected query of the findings is the separate function `IntendedUtilizationAt`. Nothing else in the model consumes utilisation readings.

## Findings

| source | as written | input that shows it | evidently intended | confidence | as-written member | corrected member |
|---|---|---|---|---|---|---|
| simulators/cloudsim/modules/cloudsim/src/main/java/org/cloudbus/cloudsim/UtilizationModelMicroservices.java:59-61 | On a direct hit, the sample index is the truncated time divided by the truncated interval. | Samples 0..5 every 2.5 s, queried at 10 s: sample 5 is returned, though 10 s is the time of sample 4. With an interval of 0.5 s the query divides by zero. Six samples every 1.5 s, queried at 6 s: the index computed is 6, beyond the trace. | Return the sample the floor index `time / interval` names. | not executed | Utilization.DirectHitTruncatesInterval, Utilization.DirectHitDividesByZero, Utilization.DirectHitOverrunsTrace | Utilization.IntendedExactAtSamples |
| simulators/cloudsim/modules/cloudsim/src/main/java/org/cloudbus/cloudsim/UtilizationModelMicroservices.java:63-65 | The slope is (after − before) / ((before − after) · interval), which is always −1/interval. | Samples 0.2 and 0.4 every 5 s, queried at 2.5 s: −0.3, below both samples and negative. | Linear interpolation with slope (after − before) / interval, which stays between the samples. | not executed | Utilization.InterpolationLeavesBracket | Utilization.IntendedWithinSampleRange |
| simulators/cloudsim/modules/cloudsim/src/main/java/org/cloudbus/cloudsim/power/PowerNetworkHost.java:180 | The counter is credited through a cast to `NetworkDatacenter`, so the field selected is the one `NetworkDatacenter` declares. `PowerContainerNetworkDatacenter` extends `PowerContainerDatacenter` (PowerContainerNetworkDatacenter.java:38) and declares its own `totalDataTransfer` (line 67). For a host of such a datacenter, the cast either throws `ClassCastException` or credits an inherited field other than line 67's. | One 1000-byte packet sent off the host: the datacenter's counter of line 67 stays 0. | Credit the datacenter's own counter with every byte sent through the network. | not executed | NetworkDatacenter.CreditAsWritten, NetworkDatacenter.OwnCounterMissesExternalPayload | NetworkDatacenter.PowerNetworkHost.SendBuffered, Routing.TransferredIsExternalPayload |
