/**
  * The network side of a power-aware container datacenter: its switches, its
  * networked hosts and the datacenter itself, which registers switches, wires
  * them into a three-level tree (edge, aggregate, root), attaches hosts to edge
  * switches and records where guests and cloudlets live. The three classes
  * refer to each other, so they share one module.
  */
module NetworkDatacenter {
  import opened Wrappers
  import opened Routing
  import opened HostAccounting

  datatype SwitchLevel = RootLevel | AggrLevel | EdgeLevel

  /** Height in the switch tree: edge switches are leaves, root switches the top. */
  function Rank(l: SwitchLevel): nat
  {
    match l
    case EdgeLevel => 0
    case AggrLevel => 1
    case RootLevel => 2
  }

  /** How `attachSwitchToSwitch(sw1, sw2)` links: `sw2` becomes an uplink of `sw1`, or a downlink. */
  datatype Link = Uplink | Downlink

  /** The `IllegalArgumentException`s of the topology operations. */
  datatype TopologyError =
    | NotInDatacenter        // attachSwitchToHost: switch unregistered or host not in the datacenter
    | NotEdgeLevel           // attachSwitchToHost: not an edge switch
    | SwitchNotRegistered    // attachSwitchToSwitch: one or both switches unregistered
    | EdgeNeedsAggregate     // an edge switch attached to anything but an aggregate switch
    | SameLevel              // two aggregate switches
    | RootNeedsAggregate     // a root switch attached to anything but an aggregate switch

  /** The level rules of `attachSwitchToSwitch`: only switches one level apart are linked, the upper one as the uplink. */
  function LinkRule(l1: SwitchLevel, l2: SwitchLevel): (r: Result<Link, TopologyError>)
    ensures r == Ok(Uplink) <==> Rank(l2) == Rank(l1) + 1
    ensures r == Ok(Downlink) <==> Rank(l1) == Rank(l2) + 1
    ensures r.Err? ==> (r.error == SameLevel <==> l1 == AggrLevel)
  {
    match l1
    case EdgeLevel => if l2 != AggrLevel then Err(EdgeNeedsAggregate) else Ok(Uplink)
    case AggrLevel =>
      if l2 == RootLevel then Ok(Uplink)
      else if l2 == EdgeLevel then Ok(Downlink)
      else Err(SameLevel)
    case RootLevel => if l2 != AggrLevel then Err(RootNeedsAggregate) else Ok(Downlink)
  }

  /** The exceptions of the event handlers. */
  datatype EventError =
    | HostlessNestedGuest    // processVmCreate: a nested guest whose chain ends without a physical host
    | HostWithoutSwitch      // processVmCreate: the physical host is attached to no switch
    | NoHostForCloudlet      // processCloudletSubmit: the allocation policy knows no host for the guest

  /** Where a guest runs: nowhere yet, on a physical host, or inside another guest. */
  datatype HostRef = NoHost | PhysicalHost(host: PowerNetworkHost) | VirtualHost(guestId: int)

  /** `guest.getHost()` for the guest with this id. */
  function HostOf(placement: map<int, HostRef>, guestId: int): HostRef
  {
    if guestId in placement then placement[guestId] else NoHost
  }

  /** Walking up from `h` reaches a non-virtual host within `depth` steps. */
  ghost predicate Grounded(placement: map<int, HostRef>, h: HostRef, depth: nat)
    decreases depth
  {
    h.VirtualHost? ==> depth > 0 && Grounded(placement, HostOf(placement, h.guestId), depth - 1)
  }

  /** The first non-virtual host on the chain from `h`. */
  ghost function Ground(placement: map<int, HostRef>, h: HostRef, depth: nat): (r: HostRef)
    requires Grounded(placement, h, depth)
    ensures !r.VirtualHost?
    ensures !h.VirtualHost? ==> r == h
    decreases depth
  {
    if h.VirtualHost? then Ground(placement, HostOf(placement, h.guestId), depth - 1) else h
  }

  /** The host a chain reaches does not depend on the bound used to show it ends. */
  lemma {:induction false} GroundIgnoresDepth(placement: map<int, HostRef>, h: HostRef, d1: nat, d2: nat)
    requires Grounded(placement, h, d1) && Grounded(placement, h, d2)
    ensures Ground(placement, h, d1) == Ground(placement, h, d2)
    decreases d1
  {
    if h.VirtualHost? {
      GroundIgnoresDepth(placement, HostOf(placement, h.guestId), d1 - 1, d2 - 1);
    }
  }

  /** `registerSwitch` on a registry: a switch id already present keeps its switch. */
  function Registered(m: map<int, PowerSwitch>, sw: PowerSwitch): (r: map<int, PowerSwitch>)
    ensures r.Keys == m.Keys + {sw.id}
    ensures forall k :: k in m ==> r[k] == m[k]
    ensures sw.id !in m ==> r[sw.id] == sw
  {
    if sw.id in m then m else m[sw.id := sw]
  }

  /** Registering is idempotent, and a second switch with a registered id changes nothing. */
  lemma RegisteredIdempotent(m: map<int, PowerSwitch>, sw: PowerSwitch, other: PowerSwitch)
    requires other.id == sw.id
    ensures Registered(Registered(m, sw), other) == Registered(m, sw)
  {
  }

  /** The two `totalDataTransfer` fields a host of this datacenter can reach: the one
      `NetworkDatacenter` declares, which the cast in `sendPackets` selects, and the
      one `PowerContainerNetworkDatacenter` declares itself. */
  datatype Transfer = Transfer(networkDatacenterField: real, ownField: real)

  /** The crediting of `sendPackets` as written, one send at a time: the field
      named through the cast to `NetworkDatacenter` gains each packet's bytes when
      the datacenter is one (`isNetworkDatacenter`); otherwise the cast throws
      (None) at the first packet. The datacenter's own field is never touched. */
  function CreditAsWritten(t: Transfer, sends: seq<Send>, isNetworkDatacenter: bool): (r: Option<Transfer>)
    ensures r.None? <==> !isNetworkDatacenter && |sends| > 0
    ensures r.Some? ==> r.value.ownField == t.ownField
    ensures r.Some? ==> r.value.networkDatacenterField == t.networkDatacenterField + SentPayload(sends)
  {
    if |sends| == 0 then Some(t)
    else
      match CreditAsWritten(t, sends[..|sends| - 1], isNetworkDatacenter)
      case None => None
      case Some(before) =>
        if isNetworkDatacenter
        then Some(before.(networkDatacenterField := before.networkDatacenterField + sends[|sends| - 1].packet.pkt.data))
        else None
  }

  /** One 1000-byte packet sent off the host: as written, the datacenter's own
      counter stays 0 whichever class the cast meets (or the cast fails), while its
      documented meaning, the bytes sent through the network, is 1000. */
  lemma OwnCounterMissesExternalPayload(isNetworkDatacenter: bool)
    ensures var sends := [Send(7, 0.0, NetworkPacket(1, HostPacket(2, 3, 4, 5, 1000.0, 0.0, 0.0, 0.0)))];
            var r := CreditAsWritten(Transfer(0.0, 0.0), sends, isNetworkDatacenter);
            SentPayload(sends) == 1000.0
            && (r.None? || r.value.ownField == 0.0)
  {
    var sends := [Send(7, 0.0, NetworkPacket(1, HostPacket(2, 3, 4, 5, 1000.0, 0.0, 0.0, 0.0)))];
    assert sends[..0] == [];
  }

  /** No switch appears twice in the list. */
  predicate NoRepeats(s: seq<PowerSwitch>)
  {
    forall i, j :: 0 <= i < j < |s| ==> s[i] != s[j]
  }

  /** The wiring of the switches `S` is a layered tree skeleton: links stay
      inside `S`, each uplink is one level up and each downlink one level down,
      every uplink is matched by the reverse downlink, and no link is listed twice. */
  ghost predicate Wired(S: set<PowerSwitch>)
    reads S
  {
    Symmetric(S) && UpOneLevel(S) && DownOneLevel(S) && Unrepeated(S)
  }

  /** Every uplink within `S` is matched by the reverse downlink, and conversely. */
  ghost predicate Symmetric(S: set<PowerSwitch>)
    reads S
  {
    forall a, b :: a in S && b in S ==> (b in a.uplinkSwitches <==> a in b.downlinkSwitches)
  }

  ghost predicate UpOneLevel(S: set<PowerSwitch>)
    reads S
  {
    forall a, b :: a in S && b in a.uplinkSwitches ==> b in S && Rank(b.level) == Rank(a.level) + 1
  }

  ghost predicate DownOneLevel(S: set<PowerSwitch>)
    reads S
  {
    forall a, b :: a in S && b in a.downlinkSwitches ==> b in S && Rank(a.level) == Rank(b.level) + 1
  }

  ghost predicate Unrepeated(S: set<PowerSwitch>)
    reads S
  {
    forall a :: a in S ==> NoRepeats(a.uplinkSwitches) && NoRepeats(a.downlinkSwitches)
  }

  class PowerSwitch {
    const id: int
    const level: SwitchLevel
    var uplinkSwitches: seq<PowerSwitch>
    var downlinkSwitches: seq<PowerSwitch>
    var hostList: map<int, PowerNetworkHost>

    constructor (id: int, level: SwitchLevel)
      ensures this.id == id && this.level == level
      ensures uplinkSwitches == [] && downlinkSwitches == [] && hostList == map[]
    {
      this.id := id;
      this.level := level;
      uplinkSwitches := [];
      downlinkSwitches := [];
      hostList := map[];
    }
  }

  class PowerNetworkHost {
    const id: int
    /** The edge switch the host is attached to. */
    var sw: PowerSwitch?
    /** Cloudlet id to its network interface. */
    var nics: map<int, Nic>
    /** Sender guest id to the packets it sends off the host in this pass. */
    var sendPktExternally: map<int, seq<NetworkPacket>>
    var guestList: seq<Guest>
    /** Ids of the guests migrating into this host. */
    var guestsMigratingIn: set<int>
    var utilizationMips: real
    var previousUtilizationMips: real
    /** The datacenter whose transfer counter the host's outbound packets credit. */
    var datacenter: PowerContainerNetworkDatacenter?

    /** The datacenter whose counter the host credits, as a frame: empty while the host belongs to none. */
    function Counter(): set<PowerContainerNetworkDatacenter>
      reads this
    {
      if datacenter == null then {} else {datacenter}
    }

    constructor (id: int)
      ensures this.id == id && sw == null && datacenter == null
      ensures nics == map[] && sendPktExternally == map[]
      ensures guestList == [] && guestsMigratingIn == {}
      ensures utilizationMips == 0.0 && previousUtilizationMips == 0.0
    {
      this.id := id;
      sw := null;
      nics := map[];
      sendPktExternally := map[];
      guestList := [];
      guestsMigratingIn := {};
      utilizationMips := 0.0;
      previousUtilizationMips := 0.0;
      datacenter := null;
    }

    /** The first pass of `sendPackets`: every queued packet, NIC by NIC in
        `nicOrder`, is delivered locally or buffered under its sender, and every
        queue is cleared. It stops at the first local packet whose receiving
        cloudlet has no NIC. */
    method RouteQueued(clock: real, nicOrder: seq<int>) returns (missing: Option<int>, flag: bool)
      requires Enumerates(nicOrder, nics.Keys)
      modifies this`nics, this`sendPktExternally
      ensures missing == FirstMissingNic(Queued(old(nics), nicOrder), guestList, old(nics).Keys)
      ensures missing.None? ==>
                nics == RoutedNics(old(nics), Queued(old(nics), nicOrder), guestList, clock)
                && sendPktExternally == RoutedExternal(old(sendPktExternally), Queued(old(nics), nicOrder), guestList, id)
                && flag == AnyLocal(Queued(old(nics), nicOrder), guestList)
    {
      flag := false;
      ghost var nics0 := nics;
      ghost var ext0 := sendPktExternally;
      ProgressNone(nics0, guestList, clock);
      RoutedExternalNone(ext0, guestList, id);
      var i := 0;
      while i < |nicOrder|
        invariant 0 <= i <= |nicOrder|
        invariant forall k :: k in nicOrder[..i] ==> k in nicOrder
        invariant nics == Progress(nics0, nicOrder[..i], Queued(nics0, nicOrder[..i]), guestList, clock)
        invariant sendPktExternally == RoutedExternal(ext0, Queued(nics0, nicOrder[..i]), guestList, id)
        invariant FirstMissingNic(Queued(nics0, nicOrder[..i]), guestList, nics0.Keys).None?
        invariant flag == AnyLocal(Queued(nics0, nicOrder[..i]), guestList)
      {
        var k := nicOrder[i];
        assert k !in nicOrder[..i];
        FirstPassStep(nics0, ext0, nicOrder, i, guestList, clock, id);
        assert nics.Keys == nics0.Keys;
        assert nics[k].pktsToSend == nics0[k].pktsToSend;
        var local;
        missing, local := RouteNic(k, clock);
        if missing.Some? {
          FirstMissingNicOfPrefix(nics0, nicOrder, i + 1, guestList, nics0.Keys);
          return;
        }
        if local {
          flag := true;
        }
        i := i + 1;
      }
      assert nicOrder[..i] == nicOrder;
      ProgressDone(nics0, nicOrder, Queued(nics0, nicOrder), guestList, clock);
      missing := None;
    }

    /** One step of the first pass: routes the queue of NIC `k`, then clears it. */
    method RouteNic(k: int, clock: real) returns (missing: Option<int>, local: bool)
      requires k in nics
      modifies this`nics, this`sendPktExternally
      ensures missing == FirstMissingNic(old(nics)[k].pktsToSend, guestList, old(nics).Keys)
      ensures missing.None? ==>
                var delivered := Delivered(old(nics), old(nics)[k].pktsToSend, guestList, clock);
                k in delivered
                && nics == delivered[k := Nic([], delivered[k].receivedPkts)]
                && sendPktExternally == RoutedExternal(old(sendPktExternally), old(nics)[k].pktsToSend, guestList, id)
                && local == AnyLocal(old(nics)[k].pktsToSend, guestList)
    {
      missing, local := RoutePackets(nics[k].pktsToSend, clock);
      if missing.None? {
        nics := nics[k := Nic([], nics[k].receivedPkts)];
      }
    }

    /** The packets of one NIC's queue, in order: each is appended, stamped, to
        the inbox of its receiving cloudlet when its receiver is a guest here, and
        buffered under its sender otherwise. The queues themselves are left alone. */
    method RoutePackets(pkts: seq<HostPacket>, clock: real) returns (missing: Option<int>, local: bool)
      modifies this`nics, this`sendPktExternally
      ensures missing == FirstMissingNic(pkts, guestList, old(nics).Keys)
      ensures missing.None? ==>
                nics == Delivered(old(nics), pkts, guestList, clock)
                && sendPktExternally == RoutedExternal(old(sendPktExternally), pkts, guestList, id)
                && local == AnyLocal(pkts, guestList)
    {
      local := false;
      DeliveredNone(nics, guestList, clock);
      RoutedExternalNone(sendPktExternally, guestList, id);
      var j := 0;
      while j < |pkts|
        invariant 0 <= j <= |pkts|
        invariant nics == Delivered(old(nics), pkts[..j], guestList, clock)
        invariant sendPktExternally == RoutedExternal(old(sendPktExternally), pkts[..j], guestList, id)
        invariant FirstMissingNic(pkts[..j], guestList, old(nics).Keys).None?
        invariant local == AnyLocal(pkts[..j], guestList)
      {
        RoutePrefixStep(old(nics), old(sendPktExternally), pkts, j, guestList, clock, id);
        var isLocal, noNic := RoutePacket(pkts[j], clock);
        if noNic {
          missing := Some(pkts[j].receiverCloudletId);
          MissingInPrefix(pkts, j + 1, guestList, old(nics).Keys);
          return;
        }
        local := local || isLocal;
        j := j + 1;
      }
      assert pkts[..j] == pkts;
      missing := None;
    }

    /** One packet of a queue: appended, stamped, to its cloudlet's inbox when
        its receiver is a guest here, and buffered under its sender otherwise. */
    method RoutePacket(p: HostPacket, clock: real) returns (isLocal: bool, noNic: bool)
      modifies this`nics, this`sendPktExternally
      ensures isLocal == IsLocal(guestList, p)
      ensures noNic <==> isLocal && p.receiverCloudletId !in old(nics)
      ensures !noNic ==>
                var c := p.receiverCloudletId;
                nics == (if isLocal then old(nics)[c := Nic(old(nics)[c].pktsToSend, old(nics)[c].receivedPkts + [p.(recvTime := clock)])]
                         else old(nics))
                && sendPktExternally == (if isLocal then old(sendPktExternally)
                                         else old(sendPktExternally)[p.senderGuestId := Lookup(old(sendPktExternally), p.senderGuestId) + [NetworkPacket(id, p)]])
    {
      var receiver := GuestById(guestList, p.receiverGuestId);
      isLocal := receiver.Some?;
      noNic := isLocal && p.receiverCloudletId !in nics;
      if noNic {
        return;
      }
      if isLocal {
        var target := nics[p.receiverCloudletId];
        nics := nics[p.receiverCloudletId := Nic(target.pktsToSend, target.receivedPkts + [p.(recvTime := clock)])];
      } else {
        sendPktExternally := sendPktExternally[p.senderGuestId := Lookup(sendPktExternally, p.senderGuestId) + [NetworkPacket(id, p)]];
      }
    }

    /** The second pass of `sendPackets`: for each sender in `senderOrder`, every
        buffered packet is credited to the datacenter's counter and sent to the
        edge switch with its shared-bandwidth delay. It stops at the first sender
        that is not a guest, or whose packets find no datacenter or no switch. */
    method SendExternally(senderOrder: seq<int>) returns (fault: Option<Fault>, sent: seq<Send>)
      requires Enumerates(senderOrder, sendPktExternally.Keys)
      requires PositiveBandwidth(guestList)
      modifies Counter()`totalDataTransfer
      ensures fault == DispatchFault(sendPktExternally, senderOrder, guestList, datacenter != null, sw != null)
      ensures fault.None? && datacenter != null && sw != null ==>
                sent == Dispatched(sendPktExternally, senderOrder, guestList, sw.id)
      ensures fault.None? && datacenter != null ==>
                datacenter.totalDataTransfer == old(datacenter.totalDataTransfer) + SentPayload(sent)
      ensures fault.None? && (datacenter == null || sw == null) ==> sent == []
    {
      var ext := sendPktExternally;
      ghost var dest := if sw != null then sw.id else 0;
      ghost var hasDc := datacenter != null;
      ghost var hasSw := sw != null;
      ghost var total0 := if datacenter != null then datacenter.totalDataTransfer else 0.0;
      sent := [];
      var s := 0;
      while s < |senderOrder|
        invariant 0 <= s <= |senderOrder|
        invariant forall g :: g in senderOrder[..s] ==> g in ext
        invariant DispatchFault(ext, senderOrder[..s], guestList, hasDc, hasSw).None?
        invariant sent == Dispatched(ext, senderOrder[..s], guestList, dest)
        invariant datacenter != null ==> datacenter.totalDataTransfer == total0 + SentPayload(sent)
        invariant !hasDc || !hasSw ==> sent == []
      {
        DispatchStep(ext, senderOrder, s, guestList, hasDc, hasSw, dest);
        var more;
        fault, more := SendFrom(ext, senderOrder[s], dest);
        if fault.Some? {
          DispatchFaultOfPrefix(ext, senderOrder, s + 1, guestList, hasDc, hasSw);
          return;
        }
        SentPayloadAppend(sent, more);
        sent := sent + more;
        s := s + 1;
      }
      assert senderOrder[..s] == senderOrder;
      fault := None;
    }

    /** One step of the second pass: the packets buffered under sender `guestId`. */
    method SendFrom(ext: map<int, seq<NetworkPacket>>, guestId: int, ghost dest: int) returns (fault: Option<Fault>, more: seq<Send>)
      requires guestId in ext
      requires PositiveBandwidth(guestList)
      requires sw != null ==> dest == sw.id
      modifies Counter()`totalDataTransfer
      ensures fault == SenderFault(ext, guestId, guestList, datacenter != null, sw != null)
      ensures fault.None? ==> more == SenderSends(ext, guestId, guestList, dest)
      ensures fault.None? && (datacenter == null || sw == null) ==> more == []
      ensures fault.None? && datacenter != null ==>
                datacenter.totalDataTransfer == old(datacenter.totalDataTransfer) + SentPayload(more)
    {
      var sender := GuestById(guestList, guestId);
      if sender.None? {
        return Some(SenderNotFound(guestId)), [];
      }
      fault, more := SendBuffered(ext[guestId], sender.value.bw, dest);
    }

    /** The packets buffered under one sender with bandwidth `bw`, each credited
        to the datacenter's counter and then sent to the edge switch `dest`. */
    method SendBuffered(list: seq<NetworkPacket>, bw: real, ghost dest: int) returns (fault: Option<Fault>, sends: seq<Send>)
      requires bw > 0.0
      requires sw != null ==> dest == sw.id
      modifies Counter()`totalDataTransfer
      ensures fault == if |list| > 0 && datacenter == null then Some(NoDatacenter)
                       else if |list| > 0 && sw == null then Some(NoEdgeSwitch)
                       else None
      ensures fault.None? ==> sends == if |list| == 0 then [] else SendsFor(list, bw, |list|, dest)
      ensures fault.None? && datacenter != null ==>
                datacenter.totalDataTransfer == old(datacenter.totalDataTransfer) + SentPayload(sends)
    {
      sends := [];
      var t := 0;
      while t < |list|
        invariant 0 <= t <= |list|
        invariant t > 0 ==> datacenter != null && sw != null
        invariant t > 0 ==> sends == SendsFor(list[..t], bw, |list|, dest)
        invariant t == 0 ==> sends == []
        invariant datacenter != null ==> datacenter.totalDataTransfer == old(datacenter.totalDataTransfer) + SentPayload(sends)
      {
        var npkt := list[t];
        var avband := bw / |list| as real;
        var delay := 8.0 * npkt.pkt.data / avband + npkt.pkt.accumulatedVirtualizationOverhead;
        if datacenter == null {
          return Some(NoDatacenter), sends;
        }
        datacenter.totalDataTransfer := datacenter.totalDataTransfer + npkt.pkt.data;
        if sw == null {
          return Some(NoEdgeSwitch), sends;
        }
        var step := Send(sw.id, delay, npkt);
        SendsForStep(list, t, bw, |list|, dest);
        SentPayloadStep(sends, step);
        sends := sends + [step];
        t := t + 1;
      }
      assert list[..t] == list;
      fault := None;
    }

    /** `sendPackets`. `nicOrder` and `senderOrder` are the iteration orders of
        the NIC map and of the external buffer after the first pass; `sent` lists
        the `CloudSim.send` calls and `reran` says whether the guests' cloudlet
        processing is re-run because some packet was delivered locally. */
    method SendPackets(clock: real, nicOrder: seq<int>, senderOrder: seq<int>) returns (r: Outcome<Fault>, sent: seq<Send>, reran: bool)
      requires Enumerates(nicOrder, nics.Keys)
      requires Enumerates(senderOrder, RoutedExternal(sendPktExternally, Queued(nics, nicOrder), guestList, id).Keys)
      requires PositiveBandwidth(guestList)
      modifies this`nics, this`sendPktExternally, Counter()`totalDataTransfer
      ensures var fault := PassFault(old(nics), nicOrder, old(sendPktExternally), senderOrder, guestList, id, datacenter != null, sw != null);
              (r.Fail? <==> fault.Some?) && (r.Fail? ==> r.error == fault.value)
      ensures r.Pass? ==>
                nics == RoutedNics(old(nics), Queued(old(nics), nicOrder), guestList, clock)
                && sendPktExternally == map[]
                && reran == AnyLocal(Queued(old(nics), nicOrder), guestList)
      ensures r.Pass? && datacenter != null && sw != null ==>
                var ext := RoutedExternal(old(sendPktExternally), Queued(old(nics), nicOrder), guestList, id);
                sent == Dispatched(ext, senderOrder, guestList, sw.id)
      ensures r.Pass? && datacenter != null ==>
                datacenter.totalDataTransfer == old(datacenter.totalDataTransfer) + SentPayload(sent)
      ensures r.Pass? && (datacenter == null || sw == null) ==> sent == []
    {
      sent := [];
      reran := false;
      var missing, flag := RouteQueued(clock, nicOrder);
      if missing.Some? {
        r := Fail(NicNotFound(missing.value));
        return;
      }
      var fault;
      fault, sent := SendExternally(senderOrder);
      if fault.Some? {
        r := Fail(fault.value);
        return;
      }
      sendPktExternally := map[];
      reran := flag;
      r := Pass;
    }

    /** The guest loop of `updateCloudletsProcessing`: adds each guest's MIPS,
        divided by 0.9 when it is migrating away, to the host's utilisation
        (starting from 0), records a history entry for each guest not migrating
        in, and sums the requested MIPS. */
    method AccountGuests(currentTime: real, mips: int -> real) returns (guestEntries: seq<GuestStateEntry>, requested: real)
      requires utilizationMips == 0.0
      modifies this`utilizationMips
      ensures utilizationMips == UtilizationMips(guestList, mips, guestsMigratingIn)
      ensures guestEntries == GuestEntries(guestList, mips, guestsMigratingIn, currentTime)
      ensures requested == RequestedMips(guestList)
    {
      guestEntries := [];
      requested := 0.0;
      for i := 0 to |guestList|
        invariant utilizationMips == UtilizationMips(guestList[..i], mips, guestsMigratingIn)
        invariant requested == RequestedMips(guestList[..i])
        invariant guestEntries == GuestEntries(guestList[..i], mips, guestsMigratingIn, currentTime)
      {
        var vm := guestList[i];
        assert guestList[..i + 1][..i] == guestList[..i] && guestList[..i + 1][i] == vm;
        var totalRequestedMips := vm.requestedTotalMips;
        var totalAllocatedMips := mips(vm.id);
        if vm.id !in guestsMigratingIn {
          guestEntries := guestEntries
            + [GuestStateEntry(vm.id, StateEntry(currentTime, totalAllocatedMips, totalRequestedMips,
                                                 vm.inMigration && vm.id !in guestsMigratingIn))];
          if vm.inMigration {
            totalAllocatedMips := totalAllocatedMips / MigrationEfficiency;
          }
        }
        utilizationMips := utilizationMips + totalAllocatedMips;
        requested := requested + totalRequestedMips;
      }
      assert guestList[..|guestList|] == guestList;
    }

    /** `updateCloudletsProcessing` after the superclass's update, which returned
        `smallerTime` and left the host's utilisation at `superUtilizationMips`; `mips` gives each guest's MIPS as allocated by the guest
        scheduler after the reallocation. Returns the guest and host history
        entries it records. */
    method UpdateCloudletsProcessing(currentTime: real, smallerTime: real, superUtilizationMips: real, mips: int -> real,
                                     clock: real, nicOrder: seq<int>, senderOrder: seq<int>)
      returns (r: Result<real, Fault>, guestEntries: seq<GuestStateEntry>, hostEntry: StateEntry, sent: seq<Send>, reran: bool)
      requires Enumerates(nicOrder, nics.Keys)
      requires Enumerates(senderOrder, RoutedExternal(sendPktExternally, Queued(nics, nicOrder), guestList, id).Keys)
      requires PositiveBandwidth(guestList)
      modifies this`previousUtilizationMips, this`utilizationMips, this`nics, this`sendPktExternally, Counter()`totalDataTransfer
      ensures previousUtilizationMips == superUtilizationMips
      ensures var fault := PassFault(old(nics), nicOrder, old(sendPktExternally), senderOrder, guestList, id, datacenter != null, sw != null);
              (r.Err? <==> fault.Some?) && (r.Err? ==> r.error == fault.value && utilizationMips == 0.0)
      ensures r.Ok? ==>
                r.value == smallerTime
                && utilizationMips == UtilizationMips(guestList, mips, guestsMigratingIn)
                && guestEntries == GuestEntries(guestList, mips, guestsMigratingIn, currentTime)
                && hostEntry == HostEntry(guestList, mips, guestsMigratingIn, currentTime)
                && nics == RoutedNics(old(nics), Queued(old(nics), nicOrder), guestList, clock)
                && sendPktExternally == map[]
                && reran == AnyLocal(Queued(old(nics), nicOrder), guestList)
      ensures r.Ok? && datacenter != null && sw != null ==>
                var ext := RoutedExternal(old(sendPktExternally), Queued(old(nics), nicOrder), guestList, id);
                sent == Dispatched(ext, senderOrder, guestList, sw.id)
      ensures r.Ok? && datacenter != null ==>
                datacenter.totalDataTransfer == old(datacenter.totalDataTransfer) + SentPayload(sent)
      ensures r.Ok? && (datacenter == null || sw == null) ==> sent == []
    {
      guestEntries := [];
      hostEntry := StateEntry(currentTime, 0.0, 0.0, false);
      previousUtilizationMips := superUtilizationMips;
      utilizationMips := 0.0;
      var hostTotalRequestedMips;
      var outcome;
      outcome, sent, reran := SendPackets(clock, nicOrder, senderOrder);
      if outcome.Fail? {
        r := Err(outcome.error);
        return;
      }
      guestEntries, hostTotalRequestedMips := AccountGuests(currentTime, mips);
      hostEntry := StateEntry(currentTime, utilizationMips, hostTotalRequestedMips, utilizationMips > 0.0);
      r := Ok(smallerTime);
    }
  }

  class PowerContainerNetworkDatacenter {
    /** Guest id to the id of the edge switch of its physical host. */
    var vmToSwitchId: map<int, int>
    /** Host id to the id of its edge switch. */
    var hostToSwitchId: map<int, int>
    /** The switch registry, by switch id. */
    var switchList: map<int, PowerSwitch>
    /** Guest id to the id of its physical host. */
    var vmToHostList: map<int, int>
    /** Bytes sent through the datacenter network. */
    var totalDataTransfer: real
    var hostList: seq<PowerNetworkHost>
    /** Time of the last cloudlet submission. */
    var cloudletSubmitted: real

    constructor (hostList: seq<PowerNetworkHost>)
      ensures this.hostList == hostList
      ensures vmToSwitchId == map[] && hostToSwitchId == map[] && switchList == map[] && vmToHostList == map[]
      ensures totalDataTransfer == 0.0 && cloudletSubmitted == 0.0
    {
      this.hostList := hostList;
      vmToSwitchId := map[];
      hostToSwitchId := map[];
      switchList := map[];
      vmToHostList := map[];
      totalDataTransfer := 0.0;
      cloudletSubmitted := 0.0;
    }

    /** `getEdgeSwitch`: the registry entries of the edge switches, keys kept. */
    method GetEdgeSwitch() returns (edge: map<int, PowerSwitch>)
      ensures forall k :: k in edge <==> k in switchList && switchList[k].level == EdgeLevel
      ensures forall k :: k in edge ==> edge[k] == switchList[k]
    {
      edge := map[];
      var rest := switchList.Keys;
      while rest != {}
        invariant rest <= switchList.Keys
        invariant forall k :: k in edge <==> k in switchList && k !in rest && switchList[k].level == EdgeLevel
        invariant forall k :: k in edge ==> edge[k] == switchList[k]
        decreases rest
      {
        if forall j :: j !in rest {
          assert false;  // a non-empty set has a member
        }
        var k :| k in rest;
        if switchList[k].level == EdgeLevel {
          edge := edge[k := switchList[k]];
        }
        rest := rest - {k};
      }
    }

    /** `registerSwitch`: adds the switch unless its id is already registered. */
    method RegisterSwitch(sw: PowerSwitch)
      modifies this`switchList
      ensures switchList == Registered(old(switchList), sw)
    {
      if sw.id !in switchList {
        switchList := switchList[sw.id := sw];
      }
    }

    /** `attachSwitchToHost`: links a registered edge switch and one of the datacenter's hosts. */
    method AttachSwitchToHost(sw: PowerSwitch, netHost: PowerNetworkHost) returns (r: Outcome<TopologyError>)
      modifies this`hostToSwitchId, sw`hostList, netHost`sw
      ensures r == Fail(NotInDatacenter) <==> sw.id !in switchList || netHost !in hostList
      ensures r == Fail(NotEdgeLevel) <==> sw.id in switchList && netHost in hostList && sw.level != EdgeLevel
      ensures r.Pass? <==> sw.id in switchList && netHost in hostList && sw.level == EdgeLevel
      ensures r.Fail? ==> unchanged(this, sw, netHost)
      ensures r.Pass? ==>
                sw.hostList == old(sw.hostList)[netHost.id := netHost]
                && hostToSwitchId == old(hostToSwitchId)[netHost.id := sw.id]
                && netHost.sw == sw
    {
      if sw.id !in switchList || netHost !in hostList {
        return Fail(NotInDatacenter);
      }
      if sw.level != EdgeLevel {
        return Fail(NotEdgeLevel);
      }
      sw.hostList := sw.hostList[netHost.id := netHost];
      hostToSwitchId := hostToSwitchId[netHost.id := sw.id];
      netHost.sw := sw;
      r := Pass;
    }

    /** The registry holds this very switch under its id. */
    predicate Holds(sw: PowerSwitch)
      reads this
    {
      sw.id in switchList && switchList[sw.id] == sw
    }

    /** `attachSwitchToSwitch`: links two registered switches one level apart in
        both directions, unless they are already linked. When registry and
        arguments agree, the wiring of the registered switches stays a layered
        tree skeleton. */
    method AttachSwitchToSwitch(sw1: PowerSwitch, sw2: PowerSwitch) returns (r: Outcome<TopologyError>)
      modifies sw1`uplinkSwitches, sw1`downlinkSwitches, sw2`uplinkSwitches, sw2`downlinkSwitches
      ensures sw1.id !in switchList || sw2.id !in switchList ==> r == Fail(SwitchNotRegistered) && unchanged(sw1, sw2)
      ensures sw1.id in switchList && sw2.id in switchList && old(sw2 in sw1.downlinkSwitches || sw2 in sw1.uplinkSwitches) ==>
                r == Pass && unchanged(sw1, sw2)
      ensures sw1.id in switchList && sw2.id in switchList && old(sw2 !in sw1.downlinkSwitches && sw2 !in sw1.uplinkSwitches) ==>
                var rule := LinkRule(sw1.level, sw2.level);
                (rule.Err? ==> r == Fail(rule.error) && unchanged(sw1, sw2))
                && (rule == Ok(Uplink) ==>
                      r == Pass && sw1 != sw2
                      && sw1.uplinkSwitches == old(sw1.uplinkSwitches) + [sw2] && sw1.downlinkSwitches == old(sw1.downlinkSwitches)
                      && sw2.downlinkSwitches == old(sw2.downlinkSwitches) + [sw1] && sw2.uplinkSwitches == old(sw2.uplinkSwitches))
                && (rule == Ok(Downlink) ==>
                      r == Pass && sw1 != sw2
                      && sw1.downlinkSwitches == old(sw1.downlinkSwitches) + [sw2] && sw1.uplinkSwitches == old(sw1.uplinkSwitches)
                      && sw2.uplinkSwitches == old(sw2.uplinkSwitches) + [sw1] && sw2.downlinkSwitches == old(sw2.downlinkSwitches))
      ensures Holds(sw1) && Holds(sw2) && old(Wired(switchList.Values)) ==> Wired(switchList.Values)
    {
      if sw1.id !in switchList || sw2.id !in switchList {
        return Fail(SwitchNotRegistered);
      }
      if sw2 in sw1.downlinkSwitches || sw2 in sw1.uplinkSwitches {
        return Pass;
      }
      ghost var S := switchList.Values;
      var rule := LinkRule(sw1.level, sw2.level);
      if rule.Err? {
        return Fail(rule.error);
      }
      // An uplink from sw1 to sw2 or a downlink from sw1 to sw2: either way the
      // lower switch gains an uplink and the upper one a downlink.
      if rule == Ok(Uplink) {
        Link(sw1, sw2, S);
      } else {
        Link(sw2, sw1, S);
      }
      r := Pass;
      assert switchList.Values == S;
    }

    /** Links `lower` up to `upper`, one level above it. Adding a link that was
        absent keeps the wiring of switches `S` a layered skeleton. */
    static method Link(lower: PowerSwitch, upper: PowerSwitch, ghost S: set<PowerSwitch>)
      requires Rank(upper.level) == Rank(lower.level) + 1
      modifies lower`uplinkSwitches, upper`downlinkSwitches
      ensures lower.uplinkSwitches == old(lower.uplinkSwitches) + [upper]
      ensures upper.downlinkSwitches == old(upper.downlinkSwitches) + [lower]
      ensures (old(Wired(S)) && lower in S && upper in S
               && old(upper !in lower.uplinkSwitches || lower !in upper.downlinkSwitches)) ==> Wired(S)
    {
      ghost var wired := Wired(S);
      lower.uplinkSwitches := lower.uplinkSwitches + [upper];
      upper.downlinkSwitches := upper.downlinkSwitches + [lower];
      if wired && lower in S && upper in S && old(upper !in lower.uplinkSwitches || lower !in upper.downlinkSwitches) {
        assert lower != upper;
        assert old(lower !in upper.downlinkSwitches && upper !in lower.uplinkSwitches);
        forall a, b | a in S && b in S
          ensures b in a.uplinkSwitches <==> a in b.downlinkSwitches
        {
          assert old(b in a.uplinkSwitches <==> a in b.downlinkSwitches);
        }
        assert Symmetric(S);
        forall a, b | a in S && b in a.uplinkSwitches
          ensures b in S && Rank(b.level) == Rank(a.level) + 1
        {
          if a != lower || b != upper {
            assert b in old(a.uplinkSwitches);
          }
        }
        assert UpOneLevel(S);
        forall a, b | a in S && b in a.downlinkSwitches
          ensures b in S && Rank(a.level) == Rank(b.level) + 1
        {
          if a != upper || b != lower {
            assert b in old(a.downlinkSwitches);
          }
        }
        assert DownOneLevel(S);
        forall a | a in S
          ensures NoRepeats(a.uplinkSwitches) && NoRepeats(a.downlinkSwitches)
        {
          assert old(NoRepeats(a.uplinkSwitches) && NoRepeats(a.downlinkSwitches));
        }
        assert Unrepeated(S);
        assert Wired(S);
      }
    }

    /** The map updates of `processVmCreate` once the guest is created: for a
        placed guest, the first physical host up its nesting chain gives the
        guest's switch and host. `depth` bounds the length of that chain. */
    method ProcessVmCreate(guestId: int, placement: map<int, HostRef>, ghost depth: nat) returns (r: Outcome<EventError>)
      requires Grounded(placement, HostOf(placement, guestId), depth)
      modifies this`vmToSwitchId, this`vmToHostList
      ensures var top := HostOf(placement, guestId);
              var root := Ground(placement, top, depth);
              if top.NoHost? then r == Pass && unchanged(this)
              else if root.NoHost? then r == Fail(HostlessNestedGuest) && unchanged(this)
              else if root.host.sw == null then r == Fail(HostWithoutSwitch) && unchanged(this)
              else r == Pass
                   && vmToSwitchId == old(vmToSwitchId)[guestId := root.host.sw.id]
                   && vmToHostList == old(vmToHostList)[guestId := root.host.id]
    {
      var host := HostOf(placement, guestId);
      if host.NoHost? {
        return Pass;
      }
      ghost var d := depth;
      while host.VirtualHost?
        invariant Grounded(placement, host, d)
        invariant Ground(placement, host, d) == Ground(placement, HostOf(placement, guestId), depth)
        decreases d
      {
        host := HostOf(placement, host.guestId);
        d := d - 1;
      }
      if host.NoHost? {
        return Fail(HostlessNestedGuest);
      }
      var netHost := host.host;
      if netHost.sw == null {
        return Fail(HostWithoutSwitch);
      }
      vmToSwitchId := vmToSwitchId[guestId := netHost.sw.id];
      vmToHostList := vmToHostList[guestId := netHost.id];
      r := Pass;
    }

    /** The updates of `processCloudletSubmit`: the submission time is recorded,
        then the cloudlet's NIC is registered on the host the allocation policy
        reports for its guest. */
    method ProcessCloudletSubmit(clock: real, cloudletId: int, nic: Nic, host: PowerNetworkHost?) returns (r: Outcome<EventError>)
      modifies this`cloudletSubmitted, host
      ensures cloudletSubmitted == clock
      ensures host == null ==> r == Fail(NoHostForCloudlet)
      ensures host != null ==>
                r == Pass && host.nics == old(host.nics)[cloudletId := nic]
                && unchanged(host`sw, host`sendPktExternally, host`guestList, host`guestsMigratingIn,
                             host`utilizationMips, host`previousUtilizationMips, host`datacenter)
    {
      cloudletSubmitted := clock;
      if host == null {
        return Fail(NoHostForCloudlet);
      }
      host.nics := host.nics[cloudletId := nic];
      r := Pass;
    }
  }
}
