/**
  * The packet pass of `PowerNetworkHost.sendPackets`, as closed-form
  * specification functions over plain data.
  *
  * First pass: every packet queued on the host's NICs (taken NIC by NIC in the
  * map's iteration order, each queue in list order) is delivered locally when
  * its receiver guest resides on the host, stamped with the current clock and
  * appended to the inbox of the receiving cloudlet's NIC; otherwise it is
  * wrapped with the host id and queued under its sender guest for external
  * sending. Second pass: for every sender (in the external map's iteration
  * order) every queued packet is sent to the host's edge switch with a delay
  * that shares the sender's bandwidth equally among its packets of the pass.
  */
module Routing {
  import opened Wrappers

  /** A packet between two cloudlets; `data` is the payload size in bytes. */
  datatype HostPacket = HostPacket(
    senderGuestId: int,
    receiverGuestId: int,
    senderCloudletId: int,
    receiverCloudletId: int,
    data: real,
    sendTime: real,
    recvTime: real,
    accumulatedVirtualizationOverhead: real)

  /** A packet leaving its host: the sending host's id and the packet. */
  datatype NetworkPacket = NetworkPacket(senderHostId: int, pkt: HostPacket)

  /** A cloudlet's network interface: its outbound queue and its inbox. */
  datatype Nic = Nic(pktsToSend: seq<HostPacket>, receivedPkts: seq<HostPacket>)

  /** What the host reads of one of its guests. */
  datatype Guest = Guest(id: int, bw: real, inMigration: bool, requestedTotalMips: real)

  /** One `CloudSim.send` of an outbound packet: to the switch `destination`, after `delay` seconds. */
  datatype Send = Send(destination: int, delay: real, packet: NetworkPacket)

  /** The exceptions the pass can raise. */
  datatype Fault =
    | NicNotFound(cloudletId: int)  // a local receiver whose cloudlet has no NIC on this host
    | SenderNotFound(guestId: int)  // buffered packets of a sender that is not a guest of this host
    | NoDatacenter                  // an outbound packet on a host that belongs to no datacenter
    | NoEdgeSwitch                  // an outbound packet on a host attached to no switch

  /** `VmList.getById`: the first guest in the list with this id. */
  function GuestById(guests: seq<Guest>, id: int): (r: Option<Guest>)
    ensures r.Some? ==> r.value in guests && r.value.id == id
    ensures r.Some? ==> exists i :: 0 <= i < |guests| && guests[i] == r.value
                                 && forall j :: 0 <= j < i ==> guests[j].id != id
    ensures r.None? <==> forall g :: g in guests ==> g.id != id
  {
    if |guests| == 0 then None
    else if guests[0].id == id then Some(guests[0])
    else
      var rest := guests[1..];
      assert forall g :: g in guests ==> g == guests[0] || g in rest;
      var r := GuestById(rest, id);
      if r.Some? then
        var i :| 0 <= i < |rest| && rest[i] == r.value && forall j :: 0 <= j < i ==> rest[j].id != id;
        assert guests[i + 1] == r.value;
        assert forall j :: 0 <= j < i + 1 ==> guests[j].id != id by {
          forall j | 0 <= j < i + 1 ensures guests[j].id != id {
            if j > 0 { assert guests[j] == rest[j - 1]; }
          }
        }
        r
      else r
  }

  /** The receiver of `p` resides on the host, so `p` is delivered locally. */
  predicate IsLocal(guests: seq<Guest>, p: HostPacket)
  {
    GuestById(guests, p.receiverGuestId).Some?
  }

  /** `order` lists every element of `keys` exactly once: an iteration order of a map with these keys. */
  predicate Enumerates(order: seq<int>, keys: set<int>)
  {
    (forall k :: k in order ==> k in keys)
    && (forall k :: k in keys ==> k in order)
    && forall i, j :: 0 <= i < j < |order| ==> order[i] != order[j]
  }

  /** The outbound queues of the NICs named by `order`, concatenated in that order. */
  function Queued(nics: map<int, Nic>, order: seq<int>): seq<HostPacket>
    requires forall k :: k in order ==> k in nics
  {
    if |order| == 0 then []
    else
      var last := order[|order| - 1];
      assert last in order;
      Queued(nics, order[..|order| - 1]) + nics[last].pktsToSend
  }

  /** The packets of `pkts` that land in the inbox of cloudlet `r`, stamped with the clock. */
  function DeliveredTo(pkts: seq<HostPacket>, guests: seq<Guest>, r: int, clock: real): seq<HostPacket>
  {
    if |pkts| == 0 then []
    else
      var p := pkts[|pkts| - 1];
      DeliveredTo(pkts[..|pkts| - 1], guests, r, clock)
      + (if IsLocal(guests, p) && p.receiverCloudletId == r then [p.(recvTime := clock)] else [])
  }

  /** The packets of `pkts` that guest `g` sends off the host, wrapped with the host id. */
  function ForwardedBy(pkts: seq<HostPacket>, guests: seq<Guest>, g: int, hostId: int): seq<NetworkPacket>
  {
    if |pkts| == 0 then []
    else
      var p := pkts[|pkts| - 1];
      ForwardedBy(pkts[..|pkts| - 1], guests, g, hostId)
      + (if !IsLocal(guests, p) && p.senderGuestId == g then [NetworkPacket(hostId, p)] else [])
  }

  /** The senders of the packets of `pkts` that leave the host. */
  function ExternalSenders(pkts: seq<HostPacket>, guests: seq<Guest>): set<int>
  {
    if |pkts| == 0 then {}
    else
      var p := pkts[|pkts| - 1];
      ExternalSenders(pkts[..|pkts| - 1], guests) + (if !IsLocal(guests, p) then {p.senderGuestId} else {})
  }

  /** Some packet of `pkts` is delivered locally. */
  predicate AnyLocal(pkts: seq<HostPacket>, guests: seq<Guest>)
  {
    exists i :: 0 <= i < |pkts| && IsLocal(guests, pkts[i])
  }

  /** The receiving cloudlet of the first local packet of `pkts` that has no NIC among `nicIds`. */
  function FirstMissingNic(pkts: seq<HostPacket>, guests: seq<Guest>, nicIds: set<int>): Option<int>
  {
    if |pkts| == 0 then None
    else
      var p := pkts[|pkts| - 1];
      var earlier := FirstMissingNic(pkts[..|pkts| - 1], guests, nicIds);
      if earlier.Some? then earlier
      else if IsLocal(guests, p) && p.receiverCloudletId !in nicIds then Some(p.receiverCloudletId)
      else None
  }

  function Lookup(m: map<int, seq<NetworkPacket>>, g: int): seq<NetworkPacket>
  {
    if g in m then m[g] else []
  }

  /** The NICs after the first pass: every outbound queue emptied, every inbox extended by its deliveries. */
  function RoutedNics(nics: map<int, Nic>, pkts: seq<HostPacket>, guests: seq<Guest>, clock: real): map<int, Nic>
  {
    map k | k in nics :: Nic([], nics[k].receivedPkts + DeliveredTo(pkts, guests, k, clock))
  }

  /** The external buffer after the first pass: each sender's list extended by its outbound packets. */
  function RoutedExternal(ext: map<int, seq<NetworkPacket>>, pkts: seq<HostPacket>, guests: seq<Guest>, hostId: int): map<int, seq<NetworkPacket>>
  {
    map g | g in ext.Keys + ExternalSenders(pkts, guests) :: Lookup(ext, g) + ForwardedBy(pkts, guests, g, hostId)
  }

  /** Transmission delay of one packet: 8 * bytes over the sender's bandwidth
      shared among its `flows` packets, plus the packet's virtualisation overhead. */
  function Delay(data: real, bw: real, flows: nat, overhead: real): real
    requires bw > 0.0 && flows > 0
  {
    8.0 * data / (bw / flows as real) + overhead
  }

  /** The sends of one sender's buffered packets, in list order; `flows` is the length of its whole list. */
  function SendsFor(pkts: seq<NetworkPacket>, bw: real, flows: nat, switchId: int): seq<Send>
    requires bw > 0.0 && flows > 0
  {
    if |pkts| == 0 then []
    else
      SendsFor(pkts[..|pkts| - 1], bw, flows, switchId) + [Sending(pkts[|pkts| - 1], bw, flows, switchId)]
  }

  /** The send of one buffered packet to the switch, its delay computed from the sender's share. */
  function Sending(n: NetworkPacket, bw: real, flows: nat, switchId: int): Send
    requires bw > 0.0 && flows > 0
  {
    Send(switchId, Delay(n.pkt.data, bw, flows, n.pkt.accumulatedVirtualizationOverhead), n)
  }

  /** Every guest of the host has positive bandwidth. */
  predicate PositiveBandwidth(guests: seq<Guest>)
  {
    forall g :: g in guests ==> g.bw > 0.0
  }

  /** The exception the second pass raises, if any: at the first sender (in
      `order`) that is not a guest, or that has packets on a host lacking a
      datacenter (checked first, as the counter is credited before the send) or
      an edge switch. */
  function DispatchFault(ext: map<int, seq<NetworkPacket>>, order: seq<int>, guests: seq<Guest>, hasDatacenter: bool, hasSwitch: bool): Option<Fault>
    requires forall g :: g in order ==> g in ext
  {
    if |order| == 0 then None
    else
      var g := order[|order| - 1];
      var earlier := DispatchFault(ext, order[..|order| - 1], guests, hasDatacenter, hasSwitch);
      if earlier.Some? then earlier else SenderFault(ext, g, guests, hasDatacenter, hasSwitch)
  }

  /** The exception the second pass raises at sender `g`, if any. */
  function SenderFault(ext: map<int, seq<NetworkPacket>>, g: int, guests: seq<Guest>, hasDatacenter: bool, hasSwitch: bool): Option<Fault>
    requires g in ext
  {
    if GuestById(guests, g).None? then Some(SenderNotFound(g))
    else if |ext[g]| > 0 && !hasDatacenter then Some(NoDatacenter)
    else if |ext[g]| > 0 && !hasSwitch then Some(NoEdgeSwitch)
    else None
  }

  /** All sends of the second pass, sender by sender in `order` (a sender that is not a guest stops the pass, see `DispatchFault`). */
  function Dispatched(ext: map<int, seq<NetworkPacket>>, order: seq<int>, guests: seq<Guest>, switchId: int): seq<Send>
    requires forall g :: g in order ==> g in ext
    requires PositiveBandwidth(guests)
  {
    if |order| == 0 then []
    else
      var g := order[|order| - 1];
      var prefix := order[..|order| - 1];
      assert forall h :: h in prefix ==> h in order;
      Dispatched(ext, prefix, guests, switchId) + SenderSends(ext, g, guests, switchId)
  }

  /** The sends of the second pass for sender `g`. */
  function SenderSends(ext: map<int, seq<NetworkPacket>>, g: int, guests: seq<Guest>, switchId: int): seq<Send>
    requires g in ext
    requires PositiveBandwidth(guests)
  {
    var sender := GuestById(guests, g);
    if |ext[g]| == 0 || sender.None? then [] else SendsFor(ext[g], sender.value.bw, |ext[g]|, switchId)
  }

  /** Total payload of a list of sends. */
  function SentPayload(sends: seq<Send>): real
  {
    if |sends| == 0 then 0.0
    else SentPayload(sends[..|sends| - 1]) + sends[|sends| - 1].packet.pkt.data
  }

  /** Total payload of a list of outbound packets. */
  function BufferedPayload(pkts: seq<NetworkPacket>): real
  {
    if |pkts| == 0 then 0.0
    else BufferedPayload(pkts[..|pkts| - 1]) + pkts[|pkts| - 1].pkt.data
  }

  /** Total payload of the packets of `pkts` that leave the host. */
  function ExternalPayload(pkts: seq<HostPacket>, guests: seq<Guest>): real
  {
    if |pkts| == 0 then 0.0
    else
      var p := pkts[|pkts| - 1];
      ExternalPayload(pkts[..|pkts| - 1], guests) + (if IsLocal(guests, p) then 0.0 else p.data)
  }

  // ---------------------------------------------------------------------
  // First pass: where each queued packet goes.

  lemma PrefixOfAppend<T>(a: seq<T>, x: T)
    ensures (a + [x])[..|a|] == a && (a + [x])[|a|] == x
  {
  }

  /** Every queued packet is delivered into the inbox of its receiving cloudlet,
      stamped with the clock, when its receiver is resident, and is otherwise
      buffered under its sender. */
  lemma {:induction false} EveryPacketRouted(pkts: seq<HostPacket>, guests: seq<Guest>, clock: real, hostId: int, i: nat)
    requires i < |pkts|
    ensures var p := pkts[i];
            IsLocal(guests, p) ==> p.(recvTime := clock) in DeliveredTo(pkts, guests, p.receiverCloudletId, clock)
    ensures var p := pkts[i];
            !IsLocal(guests, p) ==> NetworkPacket(hostId, p) in ForwardedBy(pkts, guests, p.senderGuestId, hostId)
                                    && p.senderGuestId in ExternalSenders(pkts, guests)
  {
    var n := |pkts| - 1;
    if i < n {
      EveryPacketRouted(pkts[..n], guests, clock, hostId, i);
    }
  }

  /** An inbox receives only stamped copies of queued packets whose receiver is
      resident and whose receiving cloudlet owns that inbox. */
  lemma {:induction false} DeliveriesAreLocal(pkts: seq<HostPacket>, guests: seq<Guest>, r: int, clock: real, q: HostPacket)
    requires q in DeliveredTo(pkts, guests, r, clock)
    ensures exists p :: p in pkts && IsLocal(guests, p) && p.receiverCloudletId == r && q == p.(recvTime := clock)
  {
    var n := |pkts| - 1;
    var p := pkts[n];
    if q in DeliveredTo(pkts[..n], guests, r, clock) {
      DeliveriesAreLocal(pkts[..n], guests, r, clock, q);
      var p' :| p' in pkts[..n] && IsLocal(guests, p') && p'.receiverCloudletId == r && q == p'.(recvTime := clock);
      assert p' in pkts;
    } else {
      assert p in pkts;
    }
  }

  /** A sender's buffer receives only its own queued packets whose receiver is
      not resident, each wrapped with this host's id. */
  lemma {:induction false} ForwardsAreExternal(pkts: seq<HostPacket>, guests: seq<Guest>, g: int, hostId: int, n: NetworkPacket)
    requires n in ForwardedBy(pkts, guests, g, hostId)
    ensures n.senderHostId == hostId && n.pkt in pkts && !IsLocal(guests, n.pkt) && n.pkt.senderGuestId == g
  {
    var k := |pkts| - 1;
    if n in ForwardedBy(pkts[..k], guests, g, hostId) {
      ForwardsAreExternal(pkts[..k], guests, g, hostId, n);
      assert n.pkt in pkts[..k];
    } else {
      assert pkts[k] in pkts;
    }
  }

  /** The first pass raises NicNotFound exactly when some locally addressed
      packet names a receiving cloudlet without a NIC on the host. */
  lemma {:induction false} MissingNicIff(pkts: seq<HostPacket>, guests: seq<Guest>, nicIds: set<int>)
    ensures FirstMissingNic(pkts, guests, nicIds).None? <==>
            forall i :: 0 <= i < |pkts| && IsLocal(guests, pkts[i]) ==> pkts[i].receiverCloudletId in nicIds
  {
    if |pkts| > 0 {
      var n := |pkts| - 1;
      MissingNicIff(pkts[..n], guests, nicIds);
      assert forall i :: 0 <= i < n ==> pkts[..n][i] == pkts[i];
    }
  }

  /** Appending a packet to the queue extends the local-delivery flag. */
  lemma AnyLocalAppend(pkts: seq<HostPacket>, guests: seq<Guest>, p: HostPacket)
    ensures AnyLocal(pkts + [p], guests) <==> AnyLocal(pkts, guests) || IsLocal(guests, p)
  {
    if AnyLocal(pkts, guests) {
      var i :| 0 <= i < |pkts| && IsLocal(guests, pkts[i]);
      assert (pkts + [p])[i] == pkts[i];
    }
    if AnyLocal(pkts + [p], guests) && !IsLocal(guests, p) {
      var i :| 0 <= i < |pkts| + 1 && IsLocal(guests, (pkts + [p])[i]);
      assert i < |pkts| && (pkts + [p])[i] == pkts[i];
    }
    if IsLocal(guests, p) {
      assert (pkts + [p])[|pkts|] == p;
    }
  }

  // ---------------------------------------------------------------------
  // Second pass: the sends and their delays.

  /** Sharing the bandwidth among `flows` packets multiplies the transmission time by `flows`. */
  lemma DelaySharesBandwidth(data: real, bw: real, flows: nat, overhead: real)
    requires bw > 0.0 && flows > 0
    ensures Delay(data, bw, flows, overhead) == 8.0 * data * flows as real / bw + overhead
  {
    var k := flows as real;
    var share := bw / k;
    assert share * k == bw;
    assert (8.0 * data / share) * bw == (8.0 * data / share) * share * k;
  }

  /** Sender by sender, one send per buffered packet, in list order, with the delay of its flow share. */
  lemma {:induction false} SendsForEach(pkts: seq<NetworkPacket>, bw: real, flows: nat, switchId: int, i: nat)
    requires bw > 0.0 && flows > 0 && i < |pkts|
    ensures |SendsFor(pkts, bw, flows, switchId)| == |pkts|
    ensures SendsFor(pkts, bw, flows, switchId)[i] == Sending(pkts[i], bw, flows, switchId)
  {
    var n := |pkts| - 1;
    SendsForLength(pkts[..n], bw, flows, switchId);
    if i < n {
      SendsForEach(pkts[..n], bw, flows, switchId, i);
    }
  }

  lemma {:induction false} SendsForLength(pkts: seq<NetworkPacket>, bw: real, flows: nat, switchId: int)
    requires bw > 0.0 && flows > 0
    ensures |SendsFor(pkts, bw, flows, switchId)| == |pkts|
  {
    if |pkts| > 0 {
      SendsForLength(pkts[..|pkts| - 1], bw, flows, switchId);
    }
  }

  /** Every packet buffered under a listed sender is sent to the switch with the
      delay of its share: the sender's bandwidth divided by the number of
      packets buffered under it. */
  lemma {:induction false} EveryBufferedPacketSent(ext: map<int, seq<NetworkPacket>>, order: seq<int>, guests: seq<Guest>, switchId: int, g: int, i: nat)
    requires forall h :: h in order ==> h in ext && GuestById(guests, h).Some?
    requires PositiveBandwidth(guests)
    requires g in order && i < |ext[g]|
    ensures Sending(ext[g][i], GuestById(guests, g).value.bw, |ext[g]|, switchId) in Dispatched(ext, order, guests, switchId)
  {
    var last := |order| - 1;
    var prefix := order[..last];
    assert forall h :: h in prefix ==> h in order;
    var bw := GuestById(guests, g).value.bw;
    if g == order[last] {
      SendsForEach(ext[g], bw, |ext[g]|, switchId, i);
    } else {
      assert order == prefix + [order[last]];
      EveryBufferedPacketSent(ext, prefix, guests, switchId, g, i);
    }
  }

  /** Nothing else is sent: every send carries a packet buffered under some listed
      sender, to the switch, with that sender's shared-bandwidth delay. */
  lemma {:induction false} OnlyBufferedPacketsSent(ext: map<int, seq<NetworkPacket>>, order: seq<int>, guests: seq<Guest>, switchId: int, s: Send)
    requires forall h :: h in order ==> h in ext && GuestById(guests, h).Some?
    requires PositiveBandwidth(guests)
    requires s in Dispatched(ext, order, guests, switchId)
    ensures exists g, i :: g in order && 0 <= i < |ext[g]|
                           && s == Sending(ext[g][i], GuestById(guests, g).value.bw, |ext[g]|, switchId)
  {
    var last := |order| - 1;
    var g := order[last];
    var prefix := order[..last];
    assert forall h :: h in prefix ==> h in order;
    if s in Dispatched(ext, prefix, guests, switchId) {
      OnlyBufferedPacketsSent(ext, prefix, guests, switchId, s);
      var h, i :| h in prefix && 0 <= i < |ext[h]|
                  && s == Sending(ext[h][i], GuestById(guests, h).value.bw, |ext[h]|, switchId);
      assert h in order;
    } else {
      var bw := GuestById(guests, g).value.bw;
      var sends := SendsFor(ext[g], bw, |ext[g]|, switchId);
      SendsForLength(ext[g], bw, |ext[g]|, switchId);
      var i :| 0 <= i < |sends| && sends[i] == s;
      SendsForEach(ext[g], bw, |ext[g]|, switchId, i);
      assert g in order;
    }
  }

  /** The second pass completes exactly when every listed sender is a guest and,
      unless the host has both a datacenter and a switch, no listed sender has packets. */
  lemma {:induction false} DispatchFaultIff(ext: map<int, seq<NetworkPacket>>, order: seq<int>, guests: seq<Guest>, hasDatacenter: bool, hasSwitch: bool)
    requires forall g :: g in order ==> g in ext
    ensures DispatchFault(ext, order, guests, hasDatacenter, hasSwitch).None? <==>
            (forall g :: g in order ==> GuestById(guests, g).Some?)
            && ((hasDatacenter && hasSwitch) || forall g :: g in order ==> |ext[g]| == 0)
  {
    if |order| > 0 {
      var last := |order| - 1;
      assert forall h :: h in order[..last] ==> h in order;
      assert forall h :: h in order ==> h in order[..last] || h == order[last];
      DispatchFaultIff(ext, order[..last], guests, hasDatacenter, hasSwitch);
      var g := order[last];
      assert SenderFault(ext, g, guests, hasDatacenter, hasSwitch).None? <==>
             GuestById(guests, g).Some? && ((hasDatacenter && hasSwitch) || |ext[g]| == 0);
    }
  }

  // ---------------------------------------------------------------------
  // The datacenter's byte counter.

  /** The payload buffered under the senders of `order`, summed sender by sender. */
  function BufferedBySender(ext: map<int, seq<NetworkPacket>>, order: seq<int>): real
    requires forall g :: g in order ==> g in ext
  {
    if |order| == 0 then 0.0
    else
      var g := order[|order| - 1];
      assert g in order;
      BufferedBySender(ext, order[..|order| - 1]) + BufferedPayload(ext[g])
  }

  /** The payload that the senders of `order` forward out of `pkts`, summed sender by sender. */
  function ForwardedBySender(pkts: seq<HostPacket>, guests: seq<Guest>, order: seq<int>, hostId: int): real
  {
    if |order| == 0 then 0.0
    else
      ForwardedBySender(pkts, guests, order[..|order| - 1], hostId)
      + BufferedPayload(ForwardedBy(pkts, guests, order[|order| - 1], hostId))
  }

  lemma {:induction false} SentPayloadAppend(a: seq<Send>, b: seq<Send>)
    ensures SentPayload(a + b) == SentPayload(a) + SentPayload(b)
  {
    if |b| > 0 {
      var n := |b| - 1;
      assert (a + b)[..|a + b| - 1] == a + b[..n];
      SentPayloadAppend(a, b[..n]);
    } else {
      assert a + b == a;
    }
  }

  lemma {:induction false} SentPayloadOfSendsFor(pkts: seq<NetworkPacket>, bw: real, flows: nat, switchId: int)
    requires bw > 0.0 && flows > 0
    ensures SentPayload(SendsFor(pkts, bw, flows, switchId)) == BufferedPayload(pkts)
  {
    if |pkts| > 0 {
      var n := |pkts| - 1;
      var rest := SendsFor(pkts[..n], bw, flows, switchId);
      SentPayloadOfSendsFor(pkts[..n], bw, flows, switchId);
      var last := Sending(pkts[n], bw, flows, switchId);
      SentPayloadAppend(rest, [last]);
      assert SentPayload([last]) == SentPayload([]) + last.packet.pkt.data;
    }
  }

  /** The bytes the second pass sends are the bytes buffered under its senders. */
  lemma {:induction false} SentPayloadOfDispatched(ext: map<int, seq<NetworkPacket>>, order: seq<int>, guests: seq<Guest>, switchId: int)
    requires forall g :: g in order ==> g in ext && GuestById(guests, g).Some?
    requires PositiveBandwidth(guests)
    ensures SentPayload(Dispatched(ext, order, guests, switchId)) == BufferedBySender(ext, order)
  {
    if |order| > 0 {
      var last := |order| - 1;
      var g := order[last];
      assert forall h :: h in order[..last] ==> h in order;
      SentPayloadOfDispatched(ext, order[..last], guests, switchId);
      SentPayloadAppend(Dispatched(ext, order[..last], guests, switchId), SenderSends(ext, g, guests, switchId));
      if |ext[g]| > 0 {
        SentPayloadOfSendsFor(ext[g], GuestById(guests, g).value.bw, |ext[g]|, switchId);
      }
    }
  }

  lemma RoutedFromEmpty(pkts: seq<HostPacket>, guests: seq<Guest>, hostId: int, g: int)
    requires g in RoutedExternal(map[], pkts, guests, hostId)
    ensures RoutedExternal(map[], pkts, guests, hostId)[g] == ForwardedBy(pkts, guests, g, hostId)
  {
    var f := ForwardedBy(pkts, guests, g, hostId);
    assert Lookup(map[], g) == [];
    assert [] + f == f;
  }

  /** A buffer built from an empty one holds, per sender, exactly what that sender forwards. */
  lemma {:induction false} BufferedFromEmpty(pkts: seq<HostPacket>, guests: seq<Guest>, order: seq<int>, hostId: int)
    requires forall g :: g in order ==> g in RoutedExternal(map[], pkts, guests, hostId)
    ensures BufferedBySender(RoutedExternal(map[], pkts, guests, hostId), order) == ForwardedBySender(pkts, guests, order, hostId)
  {
    if |order| > 0 {
      var last := |order| - 1;
      var prefix := order[..last];
      assert forall h :: h in prefix ==> h in order;
      assert order[last] in order;
      BufferedFromEmpty(pkts, guests, prefix, hostId);
      RoutedFromEmpty(pkts, guests, hostId, order[last]);
    }
  }

  lemma SendsForStep(pkts: seq<NetworkPacket>, t: nat, bw: real, flows: nat, switchId: int)
    requires bw > 0.0 && flows > 0 && t < |pkts|
    ensures SendsFor(pkts[..t + 1], bw, flows, switchId) == SendsFor(pkts[..t], bw, flows, switchId) + [Sending(pkts[t], bw, flows, switchId)]
  {
    assert pkts[..t + 1][..t] == pkts[..t];
  }

  lemma SentPayloadStep(sends: seq<Send>, s: Send)
    ensures SentPayload(sends + [s]) == SentPayload(sends) + s.packet.pkt.data
  {
    PrefixOfAppend(sends, s);
  }

  lemma BufferedPayloadAppend(pkts: seq<NetworkPacket>, n: NetworkPacket)
    ensures BufferedPayload(pkts + [n]) == BufferedPayload(pkts) + n.pkt.data
  {
    PrefixOfAppend(pkts, n);
  }

  /** Adding one packet to the queue adds its payload to its sender's forwards when it leaves the host. */
  lemma ForwardedByAppend(pkts: seq<HostPacket>, p: HostPacket, guests: seq<Guest>, g: int, hostId: int)
    ensures BufferedPayload(ForwardedBy(pkts + [p], guests, g, hostId))
            == BufferedPayload(ForwardedBy(pkts, guests, g, hostId)) + (if !IsLocal(guests, p) && p.senderGuestId == g then p.data else 0.0)
  {
    PrefixOfAppend(pkts, p);
    var before := ForwardedBy(pkts, guests, g, hostId);
    if !IsLocal(guests, p) && p.senderGuestId == g {
      BufferedPayloadAppend(before, NetworkPacket(hostId, p));
    } else {
      assert before + [] == before;
    }
  }

  /** Adding one packet to the queue adds its payload when it leaves the host
      and its sender is listed (once, as the listing has no repeats). */
  lemma {:induction false} ForwardedBySenderStep(pkts: seq<HostPacket>, p: HostPacket, guests: seq<Guest>, order: seq<int>, hostId: int)
    requires forall i, j :: 0 <= i < j < |order| ==> order[i] != order[j]
    ensures ForwardedBySender(pkts + [p], guests, order, hostId)
            == ForwardedBySender(pkts, guests, order, hostId)
               + (if !IsLocal(guests, p) && p.senderGuestId in order then p.data else 0.0)
  {
    if |order| > 0 {
      var last := |order| - 1;
      var g := order[last];
      var prefix := order[..last];
      assert forall i, j :: 0 <= i < j < |prefix| ==> prefix[i] != prefix[j];
      ForwardedBySenderStep(pkts, p, guests, prefix, hostId);
      ForwardedByAppend(pkts, p, guests, g, hostId);
      var out := !IsLocal(guests, p);
      var x := if out && p.senderGuestId in prefix then p.data else 0.0;
      var y := if out && p.senderGuestId == g then p.data else 0.0;
      var z := if out && p.senderGuestId in order then p.data else 0.0;
      ShareOfLast(order, p.senderGuestId, out, p.data, x, y, z);
      var a := ForwardedBySender(pkts, guests, prefix, hostId);
      var b := BufferedPayload(ForwardedBy(pkts, guests, g, hostId));
      assert ForwardedBySender(pkts, guests, order, hostId) == a + b;
      assert ForwardedBySender(pkts + [p], guests, order, hostId) == (a + x) + (b + y);
    }
  }

  /** A sender listed once is either in the front of the list or its last element, not both. */
  lemma ShareOfLast(order: seq<int>, s: int, out: bool, d: real, x: real, y: real, z: real)
    requires |order| > 0 && forall i, j :: 0 <= i < j < |order| ==> order[i] != order[j]
    requires x == if out && s in order[..|order| - 1] then d else 0.0
    requires y == if out && s == order[|order| - 1] then d else 0.0
    requires z == if out && s in order then d else 0.0
    ensures z == x + y
  {
    var last := |order| - 1;
    assert order == order[..last] + [order[last]];
    if s == order[last] {
      assert s !in order[..last];
    }
  }

  /** Summing sender by sender over distinct senders that include every external
      sender counts each outbound byte exactly once, and no local byte. */
  lemma {:induction false} ForwardedBySenderIsExternal(pkts: seq<HostPacket>, guests: seq<Guest>, order: seq<int>, hostId: int)
    requires forall i, j :: 0 <= i < j < |order| ==> order[i] != order[j]
    requires forall g :: g in ExternalSenders(pkts, guests) ==> g in order
    ensures ForwardedBySender(pkts, guests, order, hostId) == ExternalPayload(pkts, guests)
  {
    if |pkts| == 0 {
      EmptyForwards(guests, order, hostId);
    } else {
      var n := |pkts| - 1;
      var p := pkts[n];
      assert pkts == pkts[..n] + [p];
      ForwardedBySenderIsExternal(pkts[..n], guests, order, hostId);
      ForwardedBySenderStep(pkts[..n], p, guests, order, hostId);
    }
  }

  lemma {:induction false} EmptyForwards(guests: seq<Guest>, order: seq<int>, hostId: int)
    ensures ForwardedBySender([], guests, order, hostId) == 0.0
  {
    if |order| > 0 {
      EmptyForwards(guests, order[..|order| - 1], hostId);
    }
  }

  /** When the buffer starts empty and the second pass completes, the bytes sent
      -- what the datacenter's counter grows by -- are exactly the payloads of the
      queued packets whose receiver is not resident. */
  lemma TransferredIsExternalPayload(pkts: seq<HostPacket>, guests: seq<Guest>, order: seq<int>, hostId: int, switchId: int)
    requires Enumerates(order, RoutedExternal(map[], pkts, guests, hostId).Keys)
    requires forall g :: g in order ==> GuestById(guests, g).Some?
    requires PositiveBandwidth(guests)
    ensures SentPayload(Dispatched(RoutedExternal(map[], pkts, guests, hostId), order, guests, switchId))
            == ExternalPayload(pkts, guests)
  {
    var ext := RoutedExternal(map[], pkts, guests, hostId);
    SentPayloadOfDispatched(ext, order, guests, switchId);
    BufferedFromEmpty(pkts, guests, order, hostId);
    ForwardedBySenderIsExternal(pkts, guests, order, hostId);
  }

  // ---------------------------------------------------------------------
  // Step and split lemmas used by the imperative passes.

  /** How each first-pass quantity grows when one more packet is taken from the queues. */
  lemma RoutingStep(pkts: seq<HostPacket>, p: HostPacket, guests: seq<Guest>, clock: real, hostId: int, nicIds: set<int>)
    ensures forall r :: DeliveredTo(pkts + [p], guests, r, clock)
                        == DeliveredTo(pkts, guests, r, clock)
                           + (if IsLocal(guests, p) && p.receiverCloudletId == r then [p.(recvTime := clock)] else [])
    ensures forall g :: ForwardedBy(pkts + [p], guests, g, hostId)
                        == ForwardedBy(pkts, guests, g, hostId)
                           + (if !IsLocal(guests, p) && p.senderGuestId == g then [NetworkPacket(hostId, p)] else [])
    ensures ExternalSenders(pkts + [p], guests) == ExternalSenders(pkts, guests) + (if !IsLocal(guests, p) then {p.senderGuestId} else {})
    ensures FirstMissingNic(pkts + [p], guests, nicIds)
            == if FirstMissingNic(pkts, guests, nicIds).Some? then FirstMissingNic(pkts, guests, nicIds)
               else if IsLocal(guests, p) && p.receiverCloudletId !in nicIds then Some(p.receiverCloudletId)
               else None
    ensures AnyLocal(pkts + [p], guests) <==> AnyLocal(pkts, guests) || IsLocal(guests, p)
  {
    PrefixOfAppend(pkts, p);
    AnyLocalAppend(pkts, guests, p);
  }

  /** The queues of two consecutive runs of NICs are the concatenation of their queues. */
  lemma {:induction false} QueuedConcat(nics: map<int, Nic>, o1: seq<int>, o2: seq<int>)
    requires forall k :: k in o1 ==> k in nics
    requires forall k :: k in o2 ==> k in nics
    ensures forall k :: k in o1 + o2 ==> k in nics
    ensures Queued(nics, o1 + o2) == Queued(nics, o1) + Queued(nics, o2)
  {
    if |o2| > 0 {
      var n := |o2| - 1;
      assert forall k :: k in o2[..n] ==> k in o2;
      assert (o1 + o2)[..|o1 + o2| - 1] == o1 + o2[..n];
      assert (o1 + o2)[|o1 + o2| - 1] == o2[n];
      QueuedConcat(nics, o1, o2[..n]);
    } else {
      assert o1 + o2 == o1;
    }
  }

  lemma QueuedStep(nics: map<int, Nic>, order: seq<int>, i: nat)
    requires forall k :: k in order ==> k in nics
    requires i < |order|
    ensures forall k :: k in order[..i + 1] ==> k in nics
    ensures order[..i + 1] == order[..i] + [order[i]]
    ensures Queued(nics, order[..i + 1]) == Queued(nics, order[..i]) + nics[order[i]].pktsToSend
  {
    assert forall k :: k in order[..i + 1] ==> k in order;
    assert order[..i + 1][..i] == order[..i];
  }

  /** How the second pass's fault and sends grow by one more sender. */
  lemma DispatchStep(ext: map<int, seq<NetworkPacket>>, order: seq<int>, s: nat, guests: seq<Guest>,
                     hasDatacenter: bool, hasSwitch: bool, switchId: int)
    requires forall g :: g in order ==> g in ext
    requires s < |order| && PositiveBandwidth(guests)
    ensures forall g :: g in order[..s] ==> g in ext
    ensures forall g :: g in order[..s + 1] ==> g in ext
    ensures var earlier := DispatchFault(ext, order[..s], guests, hasDatacenter, hasSwitch);
            DispatchFault(ext, order[..s + 1], guests, hasDatacenter, hasSwitch)
            == if earlier.Some? then earlier else SenderFault(ext, order[s], guests, hasDatacenter, hasSwitch)
    ensures Dispatched(ext, order[..s + 1], guests, switchId)
            == Dispatched(ext, order[..s], guests, switchId) + SenderSends(ext, order[s], guests, switchId)
  {
    assert forall g :: g in order[..s] ==> g in order;
    assert forall g :: g in order[..s + 1] ==> g in order;
    assert order[..s + 1][..s] == order[..s];
  }

  /** The first missing NIC of a concatenation is the first one of its front, if any. */
  lemma {:induction false} FirstMissingNicConcat(a: seq<HostPacket>, b: seq<HostPacket>, guests: seq<Guest>, nicIds: set<int>)
    ensures FirstMissingNic(a + b, guests, nicIds)
            == if FirstMissingNic(a, guests, nicIds).Some? then FirstMissingNic(a, guests, nicIds) else FirstMissingNic(b, guests, nicIds)
  {
    if |b| > 0 {
      var n := |b| - 1;
      assert (a + b)[..|a + b| - 1] == a + b[..n];
      assert (a + b)[|a + b| - 1] == b[n];
      FirstMissingNicConcat(a, b[..n], guests, nicIds);
    } else {
      assert a + b == a;
    }
  }

  /** A missing NIC met in a prefix of a queue is the first one of the whole queue. */
  lemma MissingInPrefix(pkts: seq<HostPacket>, m: nat, guests: seq<Guest>, nicIds: set<int>)
    requires m <= |pkts|
    requires FirstMissingNic(pkts[..m], guests, nicIds).Some?
    ensures FirstMissingNic(pkts, guests, nicIds) == FirstMissingNic(pkts[..m], guests, nicIds)
  {
    FirstMissingNicConcat(pkts[..m], pkts[m..], guests, nicIds);
    assert pkts[..m] + pkts[m..] == pkts;
  }

  /** A fault met on a prefix of the senders is the fault of the whole pass. */
  lemma {:induction false} DispatchFaultOfPrefix(ext: map<int, seq<NetworkPacket>>, order: seq<int>, m: nat, guests: seq<Guest>, hasDatacenter: bool, hasSwitch: bool)
    requires forall g :: g in order ==> g in ext
    requires m <= |order|
    requires forall g :: g in order[..m] ==> g in ext
    requires DispatchFault(ext, order[..m], guests, hasDatacenter, hasSwitch).Some?
    ensures DispatchFault(ext, order, guests, hasDatacenter, hasSwitch) == DispatchFault(ext, order[..m], guests, hasDatacenter, hasSwitch)
    decreases |order| - m
  {
    if m < |order| {
      var n := |order| - 1;
      assert forall g :: g in order[..n] ==> g in order;
      assert order[..n][..m] == order[..m];
      DispatchFaultOfPrefix(ext, order[..n], m, guests, hasDatacenter, hasSwitch);
    } else {
      assert order[..m] == order;
    }
  }

  /** The exception `sendPackets` raises, if any: a missing NIC in the first pass, else the second pass's. */
  function PassFault(nics: map<int, Nic>, nicOrder: seq<int>, ext: map<int, seq<NetworkPacket>>, senderOrder: seq<int>,
                     guests: seq<Guest>, hostId: int, hasDatacenter: bool, hasSwitch: bool): Option<Fault>
    requires forall k :: k in nicOrder ==> k in nics
    requires forall g :: g in senderOrder ==> g in RoutedExternal(ext, Queued(nics, nicOrder), guests, hostId)
  {
    var q := Queued(nics, nicOrder);
    var missing := FirstMissingNic(q, guests, nics.Keys);
    if missing.Some? then Some(NicNotFound(missing.value))
    else DispatchFault(RoutedExternal(ext, q, guests, hostId), senderOrder, guests, hasDatacenter, hasSwitch)
  }

  /** The first-pass quantities of two consecutive runs of packets combine. */
  lemma {:induction false} RoutingConcat(a: seq<HostPacket>, b: seq<HostPacket>, guests: seq<Guest>, clock: real, hostId: int)
    ensures forall r :: DeliveredTo(a + b, guests, r, clock) == DeliveredTo(a, guests, r, clock) + DeliveredTo(b, guests, r, clock)
    ensures forall g :: ForwardedBy(a + b, guests, g, hostId) == ForwardedBy(a, guests, g, hostId) + ForwardedBy(b, guests, g, hostId)
    ensures ExternalSenders(a + b, guests) == ExternalSenders(a, guests) + ExternalSenders(b, guests)
    ensures AnyLocal(a + b, guests) <==> AnyLocal(a, guests) || AnyLocal(b, guests)
  {
    if |b| == 0 {
      assert a + b == a;
      forall r ensures DeliveredTo(a, guests, r, clock) + [] == DeliveredTo(a, guests, r, clock) { }
      forall g ensures ForwardedBy(a, guests, g, hostId) + [] == ForwardedBy(a, guests, g, hostId) { }
    } else {
      var n := |b| - 1;
      var x := b[n];
      assert b == b[..n] + [x];
      assert a + b == (a + b[..n]) + [x];
      RoutingConcat(a, b[..n], guests, clock, hostId);
      RoutingStep(a + b[..n], x, guests, clock, hostId, {});
      RoutingStep(b[..n], x, guests, clock, hostId, {});
    }
  }

  lemma AnyLocalConcat(a: seq<HostPacket>, b: seq<HostPacket>, guests: seq<Guest>)
    ensures AnyLocal(a + b, guests) <==> AnyLocal(a, guests) || AnyLocal(b, guests)
  {
    if AnyLocal(a, guests) {
      var i :| 0 <= i < |a| && IsLocal(guests, a[i]);
      assert (a + b)[i] == a[i];
    }
    if AnyLocal(a + b, guests) {
      var i :| 0 <= i < |a + b| && IsLocal(guests, (a + b)[i]);
      if i >= |a| {
        assert b[i - |a|] == (a + b)[i];
      }
    }
    if AnyLocal(b, guests) {
      var i :| 0 <= i < |b| && IsLocal(guests, b[i]);
      assert (a + b)[|a| + i] == b[i];
    }
  }

  /** A guest that sends nothing off the host forwards no packet. */
  lemma {:induction false} NonSenderForwardsNothing(pkts: seq<HostPacket>, guests: seq<Guest>, g: int, hostId: int)
    requires g !in ExternalSenders(pkts, guests)
    ensures ForwardedBy(pkts, guests, g, hostId) == []
  {
    if |pkts| > 0 {
      NonSenderForwardsNothing(pkts[..|pkts| - 1], guests, g, hostId);
    }
  }

  /** The NICs after the packets `pkts` were delivered, queues untouched. */
  function Delivered(nics: map<int, Nic>, pkts: seq<HostPacket>, guests: seq<Guest>, clock: real): map<int, Nic>
  {
    map c | c in nics :: Nic(nics[c].pktsToSend, nics[c].receivedPkts + DeliveredTo(pkts, guests, c, clock))
  }

  /** The NICs part-way through the first pass: the queues of `processed` cleared,
      and the packets `done` delivered. */
  function Progress(nics: map<int, Nic>, processed: seq<int>, done: seq<HostPacket>, guests: seq<Guest>, clock: real): map<int, Nic>
  {
    map c | c in nics :: Nic(if c in processed then [] else nics[c].pktsToSend,
                             nics[c].receivedPkts + DeliveredTo(done, guests, c, clock))
  }

  lemma DeliveredNone(nics: map<int, Nic>, guests: seq<Guest>, clock: real)
    ensures Delivered(nics, [], guests, clock) == nics
  {
    forall c | c in nics
      ensures Delivered(nics, [], guests, clock)[c] == nics[c]
    {
      assert nics[c].receivedPkts + [] == nics[c].receivedPkts;
    }
  }

  lemma ProgressNone(nics: map<int, Nic>, guests: seq<Guest>, clock: real)
    ensures Progress(nics, [], [], guests, clock) == nics
  {
    forall c | c in nics
      ensures Progress(nics, [], [], guests, clock)[c] == nics[c]
    {
      assert nics[c].receivedPkts + [] == nics[c].receivedPkts;
    }
  }

  lemma RoutedExternalNone(ext: map<int, seq<NetworkPacket>>, guests: seq<Guest>, hostId: int)
    ensures RoutedExternal(ext, [], guests, hostId) == ext
  {
    forall g | g in ext
      ensures RoutedExternal(ext, [], guests, hostId)[g] == ext[g]
    {
      assert ext[g] + [] == ext[g];
    }
  }

  /** Delivering one more local packet appends it, stamped, to its receiving cloudlet's inbox. */
  lemma DeliverStep(nics: map<int, Nic>, pkts: seq<HostPacket>, p: HostPacket, guests: seq<Guest>, clock: real)
    ensures var before := Delivered(nics, pkts, guests, clock);
            var c := p.receiverCloudletId;
            Delivered(nics, pkts + [p], guests, clock)
            == if IsLocal(guests, p) && c in before
               then before[c := Nic(before[c].pktsToSend, before[c].receivedPkts + [p.(recvTime := clock)])]
               else before
  {
    var before := Delivered(nics, pkts, guests, clock);
    var after := Delivered(nics, pkts + [p], guests, clock);
    var rc := p.receiverCloudletId;
    var expected := if IsLocal(guests, p) && rc in before
                    then before[rc := Nic(before[rc].pktsToSend, before[rc].receivedPkts + [p.(recvTime := clock)])]
                    else before;
    assert after.Keys == expected.Keys;
    forall c | c in after
      ensures after[c] == expected[c]
    {
      DeliverStepAt(nics, pkts, p, guests, clock, c);
    }
  }

  lemma DeliverStepAt(nics: map<int, Nic>, pkts: seq<HostPacket>, p: HostPacket, guests: seq<Guest>, clock: real, c: int)
    requires c in nics
    ensures var stamped := p.(recvTime := clock);
            nics[c].receivedPkts + DeliveredTo(pkts + [p], guests, c, clock)
            == nics[c].receivedPkts + DeliveredTo(pkts, guests, c, clock)
               + (if IsLocal(guests, p) && p.receiverCloudletId == c then [stamped] else [])
  {
    var d := DeliveredTo(pkts, guests, c, clock);
    var extra := if IsLocal(guests, p) && p.receiverCloudletId == c then [p.(recvTime := clock)] else [];
    PrefixOfAppend(pkts, p);
    assert DeliveredTo(pkts + [p], guests, c, clock) == d + extra;
    assert nics[c].receivedPkts + (d + extra) == (nics[c].receivedPkts + d) + extra;
  }

  lemma ForwardedByStepAt(pkts: seq<HostPacket>, p: HostPacket, guests: seq<Guest>, g: int, hostId: int)
    ensures ForwardedBy(pkts + [p], guests, g, hostId)
            == ForwardedBy(pkts, guests, g, hostId) + (if !IsLocal(guests, p) && p.senderGuestId == g then [NetworkPacket(hostId, p)] else [])
  {
    PrefixOfAppend(pkts, p);
  }

  lemma ExternalSendersStep(pkts: seq<HostPacket>, p: HostPacket, guests: seq<Guest>)
    ensures ExternalSenders(pkts + [p], guests) == ExternalSenders(pkts, guests) + (if !IsLocal(guests, p) then {p.senderGuestId} else {})
  {
    PrefixOfAppend(pkts, p);
  }

  lemma {:induction false} ForwardedByConcatAt(a: seq<HostPacket>, b: seq<HostPacket>, guests: seq<Guest>, g: int, hostId: int)
    ensures ForwardedBy(a + b, guests, g, hostId) == ForwardedBy(a, guests, g, hostId) + ForwardedBy(b, guests, g, hostId)
  {
    if |b| == 0 {
      assert a + b == a;
      assert ForwardedBy(a, guests, g, hostId) + [] == ForwardedBy(a, guests, g, hostId);
    } else {
      var n := |b| - 1;
      var x := b[n];
      assert b == b[..n] + [x];
      assert a + b == (a + b[..n]) + [x];
      ForwardedByConcatAt(a, b[..n], guests, g, hostId);
      ForwardedByStepAt(a + b[..n], x, guests, g, hostId);
      ForwardedByStepAt(b[..n], x, guests, g, hostId);
    }
  }

  lemma {:induction false} DeliveredToConcatAt(a: seq<HostPacket>, b: seq<HostPacket>, guests: seq<Guest>, r: int, clock: real)
    ensures DeliveredTo(a + b, guests, r, clock) == DeliveredTo(a, guests, r, clock) + DeliveredTo(b, guests, r, clock)
  {
    if |b| == 0 {
      assert a + b == a;
      assert DeliveredTo(a, guests, r, clock) + [] == DeliveredTo(a, guests, r, clock);
    } else {
      var n := |b| - 1;
      var x := b[n];
      assert b == b[..n] + [x];
      assert a + b == (a + b[..n]) + [x];
      DeliveredToConcatAt(a, b[..n], guests, r, clock);
      PrefixOfAppend(a + b[..n], x);
      PrefixOfAppend(b[..n], x);
    }
  }

  /** Buffering one more outbound packet appends it, wrapped, to its sender's list. */
  lemma ForwardStep(ext: map<int, seq<NetworkPacket>>, pkts: seq<HostPacket>, p: HostPacket, guests: seq<Guest>, hostId: int)
    ensures var before := RoutedExternal(ext, pkts, guests, hostId);
            var g := p.senderGuestId;
            RoutedExternal(ext, pkts + [p], guests, hostId)
            == if IsLocal(guests, p) then before
               else before[g := Lookup(before, g) + [NetworkPacket(hostId, p)]]
  {
    var before := RoutedExternal(ext, pkts, guests, hostId);
    var after := RoutedExternal(ext, pkts + [p], guests, hostId);
    var s := p.senderGuestId;
    var expected := if IsLocal(guests, p) then before else before[s := Lookup(before, s) + [NetworkPacket(hostId, p)]];
    ExternalSendersStep(pkts, p, guests);
    assert after.Keys == expected.Keys;
    forall g | g in after
      ensures after[g] == expected[g]
    {
      RoutedExternalAt(ext, pkts + [p], guests, hostId, g);
      ForwardStepAt(ext, pkts, p, guests, hostId, g);
      if g in before {
        RoutedExternalAt(ext, pkts, guests, hostId, g);
      }
    }
  }

  lemma ForwardStepAt(ext: map<int, seq<NetworkPacket>>, pkts: seq<HostPacket>, p: HostPacket, guests: seq<Guest>, hostId: int, g: int)
    ensures Lookup(ext, g) + ForwardedBy(pkts + [p], guests, g, hostId)
            == Lookup(RoutedExternal(ext, pkts, guests, hostId), g)
               + (if !IsLocal(guests, p) && p.senderGuestId == g then [NetworkPacket(hostId, p)] else [])
  {
    var f := ForwardedBy(pkts, guests, g, hostId);
    var extra := if !IsLocal(guests, p) && p.senderGuestId == g then [NetworkPacket(hostId, p)] else [];
    ForwardedByStepAt(pkts, p, guests, g, hostId);
    if g !in RoutedExternal(ext, pkts, guests, hostId) {
      NonSenderForwardsNothing(pkts, guests, g, hostId);
    }
    assert Lookup(RoutedExternal(ext, pkts, guests, hostId), g) == Lookup(ext, g) + f;
    assert Lookup(ext, g) + (f + extra) == (Lookup(ext, g) + f) + extra;
  }

  /** Routing two runs of packets one after the other routes their concatenation. */
  lemma RoutedExternalTwice(ext: map<int, seq<NetworkPacket>>, a: seq<HostPacket>, b: seq<HostPacket>, guests: seq<Guest>, hostId: int)
    ensures RoutedExternal(RoutedExternal(ext, a, guests, hostId), b, guests, hostId) == RoutedExternal(ext, a + b, guests, hostId)
  {
    var lhs := RoutedExternal(RoutedExternal(ext, a, guests, hostId), b, guests, hostId);
    var rhs := RoutedExternal(ext, a + b, guests, hostId);
    RoutedExternalTwiceKeys(ext, a, b, guests, hostId);
    forall g | g in lhs
      ensures lhs[g] == rhs[g]
    {
      RoutedExternalAt(RoutedExternal(ext, a, guests, hostId), b, guests, hostId, g);
      RoutedExternalAt(ext, a + b, guests, hostId, g);
      RoutedExternalTwiceAt(ext, a, b, guests, hostId, g);
    }
  }

  lemma RoutedExternalTwiceKeys(ext: map<int, seq<NetworkPacket>>, a: seq<HostPacket>, b: seq<HostPacket>, guests: seq<Guest>, hostId: int)
    ensures RoutedExternal(RoutedExternal(ext, a, guests, hostId), b, guests, hostId).Keys == RoutedExternal(ext, a + b, guests, hostId).Keys
  {
    ExternalSendersConcat(a, b, guests);
  }

  lemma RoutedExternalTwiceAt(ext: map<int, seq<NetworkPacket>>, a: seq<HostPacket>, b: seq<HostPacket>, guests: seq<Guest>, hostId: int, g: int)
    ensures Lookup(RoutedExternal(ext, a, guests, hostId), g) + ForwardedBy(b, guests, g, hostId)
            == Lookup(ext, g) + ForwardedBy(a + b, guests, g, hostId)
  {
    var mid := RoutedExternal(ext, a, guests, hostId);
    var fa := ForwardedBy(a, guests, g, hostId);
    var fb := ForwardedBy(b, guests, g, hostId);
    ForwardedByConcatAt(a, b, guests, g, hostId);
    if g !in mid {
      NonSenderForwardsNothing(a, guests, g, hostId);
    }
    assert Lookup(mid, g) == Lookup(ext, g) + fa;
    assert (Lookup(ext, g) + fa) + fb == Lookup(ext, g) + (fa + fb);
  }

  lemma RoutedExternalAt(ext: map<int, seq<NetworkPacket>>, pkts: seq<HostPacket>, guests: seq<Guest>, hostId: int, g: int)
    requires g in RoutedExternal(ext, pkts, guests, hostId)
    ensures RoutedExternal(ext, pkts, guests, hostId)[g] == Lookup(ext, g) + ForwardedBy(pkts, guests, g, hostId)
  {
  }

  lemma {:induction false} ExternalSendersConcat(a: seq<HostPacket>, b: seq<HostPacket>, guests: seq<Guest>)
    ensures ExternalSenders(a + b, guests) == ExternalSenders(a, guests) + ExternalSenders(b, guests)
  {
    if |b| == 0 {
      assert a + b == a;
    } else {
      var n := |b| - 1;
      var x := b[n];
      assert b == b[..n] + [x];
      assert a + b == (a + b[..n]) + [x];
      ExternalSendersConcat(a, b[..n], guests);
      ExternalSendersStep(a + b[..n], x, guests);
      ExternalSendersStep(b[..n], x, guests);
    }
  }

  /** Routing the queue of NIC `k` from a part-way state and clearing it advances the first pass by `k`. */
  lemma ProgressStep(nics: map<int, Nic>, processed: seq<int>, done: seq<HostPacket>, k: int, guests: seq<Guest>, clock: real)
    requires k in nics && k !in processed
    ensures var before := Progress(nics, processed, done, guests, clock);
            var after := Delivered(before, nics[k].pktsToSend, guests, clock);
            k in after
            && after[k := Nic([], after[k].receivedPkts)] == Progress(nics, processed + [k], done + nics[k].pktsToSend, guests, clock)
  {
    var q := nics[k].pktsToSend;
    var before := Progress(nics, processed, done, guests, clock);
    var after := Delivered(before, q, guests, clock);
    var lhs := after[k := Nic([], after[k].receivedPkts)];
    var rhs := Progress(nics, processed + [k], done + q, guests, clock);
    ProgressStepKeys(nics, processed, done, k, guests, clock);
    forall c | c in lhs
      ensures lhs[c] == rhs[c]
    {
      ProgressStepAt(nics, processed, done, k, guests, clock, c);
    }
  }

  lemma ProgressStepKeys(nics: map<int, Nic>, processed: seq<int>, done: seq<HostPacket>, k: int, guests: seq<Guest>, clock: real)
    requires k in nics
    ensures var after := Delivered(Progress(nics, processed, done, guests, clock), nics[k].pktsToSend, guests, clock);
            after.Keys == nics.Keys
            && Progress(nics, processed + [k], done + nics[k].pktsToSend, guests, clock).Keys == nics.Keys
  {
    var before := Progress(nics, processed, done, guests, clock);
    assert before.Keys == nics.Keys;
  }

  lemma ProgressStepAt(nics: map<int, Nic>, processed: seq<int>, done: seq<HostPacket>, k: int, guests: seq<Guest>, clock: real, c: int)
    requires k in nics && c in nics
    ensures var after := Delivered(Progress(nics, processed, done, guests, clock), nics[k].pktsToSend, guests, clock);
            c in after
            && (if c == k then Nic([], after[c].receivedPkts) else after[c])
               == Progress(nics, processed + [k], done + nics[k].pktsToSend, guests, clock)[c]
  {
    var q := nics[k].pktsToSend;
    var before := Progress(nics, processed, done, guests, clock);
    var after := Delivered(before, q, guests, clock);
    assert (c in processed + [k]) <==> (c in processed || c == k);
    var dd := DeliveredTo(done, guests, c, clock);
    var dq := DeliveredTo(q, guests, c, clock);
    DeliveredToConcatAt(done, q, guests, c, clock);
    assert before[c].receivedPkts == nics[c].receivedPkts + dd;
    assert after[c].receivedPkts == (nics[c].receivedPkts + dd) + dq;
    assert (nics[c].receivedPkts + dd) + dq == nics[c].receivedPkts + (dd + dq);
  }

  /** Routing the j-th packet of `pkts`, stated on the prefixes the routing loop walks. */
  lemma RoutePrefixStep(nics: map<int, Nic>, ext: map<int, seq<NetworkPacket>>, pkts: seq<HostPacket>, j: nat,
                        guests: seq<Guest>, clock: real, hostId: int)
    requires j < |pkts|
    ensures var p := pkts[j];
            var c := p.receiverCloudletId;
            var before := Delivered(nics, pkts[..j], guests, clock);
            before.Keys == nics.Keys
            && Delivered(nics, pkts[..j + 1], guests, clock)
               == if IsLocal(guests, p) && c in before
                  then before[c := Nic(before[c].pktsToSend, before[c].receivedPkts + [p.(recvTime := clock)])]
                  else before
    ensures var p := pkts[j];
            var before := RoutedExternal(ext, pkts[..j], guests, hostId);
            RoutedExternal(ext, pkts[..j + 1], guests, hostId)
            == if IsLocal(guests, p) then before
               else before[p.senderGuestId := Lookup(before, p.senderGuestId) + [NetworkPacket(hostId, p)]]
    ensures var p := pkts[j];
            FirstMissingNic(pkts[..j], guests, nics.Keys).None? ==>
              FirstMissingNic(pkts[..j + 1], guests, nics.Keys)
              == if IsLocal(guests, p) && p.receiverCloudletId !in nics then Some(p.receiverCloudletId) else None
    ensures AnyLocal(pkts[..j + 1], guests) <==> AnyLocal(pkts[..j], guests) || IsLocal(guests, pkts[j])
  {
    var p := pkts[j];
    assert pkts[..j + 1] == pkts[..j] + [p];
    FirstMissingNicConcat(pkts[..j], [p], guests, nics.Keys);
    AnyLocalAppend(pkts[..j], guests, p);
    DeliverStep(nics, pkts[..j], p, guests, clock);
    ForwardStep(ext, pkts[..j], p, guests, hostId);
  }

  /** A missing NIC met in the queues of a prefix of the NICs is the first one of the whole pass. */
  lemma FirstMissingNicOfPrefix(nics: map<int, Nic>, order: seq<int>, m: nat, guests: seq<Guest>, nicIds: set<int>)
    requires forall k :: k in order ==> k in nics
    requires m <= |order|
    requires forall k :: k in order[..m] ==> k in nics
    requires FirstMissingNic(Queued(nics, order[..m]), guests, nicIds).Some?
    ensures FirstMissingNic(Queued(nics, order), guests, nicIds) == FirstMissingNic(Queued(nics, order[..m]), guests, nicIds)
  {
    assert order == order[..m] + order[m..];
    assert forall k :: k in order[m..] ==> k in order;
    QueuedConcat(nics, order[..m], order[m..]);
    FirstMissingNicConcat(Queued(nics, order[..m]), Queued(nics, order[m..]), guests, nicIds);
  }

  /** Routing the queue of the i-th NIC of `order` and clearing it takes the
      first pass from `order[..i]` to `order[..i + 1]`. */
  lemma FirstPassStep(nics: map<int, Nic>, ext: map<int, seq<NetworkPacket>>, order: seq<int>, i: nat,
                      guests: seq<Guest>, clock: real, hostId: int)
    requires forall k :: k in order ==> k in nics
    requires i < |order| && order[i] !in order[..i]
    ensures order[i] in nics
    ensures forall k :: k in order[..i] ==> k in nics
    ensures forall k :: k in order[..i + 1] ==> k in nics
    ensures var done := Queued(nics, order[..i]);
            var q := nics[order[i]].pktsToSend;
            var delivered := Delivered(Progress(nics, order[..i], done, guests, clock), q, guests, clock);
            order[i] in delivered
            && delivered[order[i] := Nic([], delivered[order[i]].receivedPkts)]
               == Progress(nics, order[..i + 1], Queued(nics, order[..i + 1]), guests, clock)
            && RoutedExternal(RoutedExternal(ext, done, guests, hostId), q, guests, hostId)
               == RoutedExternal(ext, Queued(nics, order[..i + 1]), guests, hostId)
            && (FirstMissingNic(done, guests, nics.Keys).None? ==>
                  FirstMissingNic(Queued(nics, order[..i + 1]), guests, nics.Keys) == FirstMissingNic(q, guests, nics.Keys))
            && (AnyLocal(Queued(nics, order[..i + 1]), guests) <==> AnyLocal(done, guests) || AnyLocal(q, guests))
  {
    var k := order[i];
    QueuedStep(nics, order, i);
    var done := Queued(nics, order[..i]);
    var q := nics[k].pktsToSend;
    FirstMissingNicConcat(done, q, guests, nics.Keys);
    AnyLocalConcat(done, q, guests);
    RoutedExternalTwice(ext, done, q, guests, hostId);
    ProgressStep(nics, order[..i], done, k, guests, clock);
  }

  /** At the end of the first pass every queue is cleared and every packet delivered. */
  lemma ProgressDone(nics: map<int, Nic>, order: seq<int>, pkts: seq<HostPacket>, guests: seq<Guest>, clock: real)
    requires forall k :: k in nics ==> k in order
    ensures Progress(nics, order, pkts, guests, clock) == RoutedNics(nics, pkts, guests, clock)
  {
  }
}
