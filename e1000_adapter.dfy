/** The e1000 UNDI adapter (GIG_DRIVER_DATA) and the e1000.c operations that work on its
    descriptor rings and registers. The rings are arrays; TxBufferUnmappedAddr is the
    array of frame addresses the driver still owns. The device registers the operations
    touch (RCTL, RXDCTL, TDT, RDT, RDH, IMC, IMS) are fields holding the last value
    written; what the hardware does on its own (setting DD, moving TDH, counting frames)
    comes in as parameters. */
module E1000Adapter {
  import opened Wrappers
  import opened E1000Spec
  import opened E1000Filters
  import opened E1000Registers
  import opened E1000Interrupts

  /** The MACs whose receive queue is reset through RXDCTL when receives stop. */
  predicate QueueResetMac(m: MacType)
  {
    m == Mac82575 || m == Mac82576 || m == Mac82580
  }

  /** RCTL after ReceiveDisable: the enable bit cleared on the 82571 when receives were
      running, otherwise as it was. */
  function DisabledRctl(rctl: bv32, m: MacType, started: bool): bv32
  {
    if started && m == Mac82571 then ClearRegBits(rctl, RctlEn) else rctl
  }

  /** The receive side of the adapter that ReceiveDisable, ReceiveEnable and SetFilter
      change: ReceiveStarted, Int_Status, RCTL, RXDCTL, RDH, RDT, cur_rx_ind and the
      receive ring. */
  datatype RxUnit = RxUnit(started: bool, intStatus: nat, rctl: bv32, rxdctl: bv32,
                           rdh: int, rdt: int, curRxInd: int, ring: seq<RxDescriptor>)

  /** Every descriptor of the ring cleaned up, buffers kept. */
  function DrainAll(ring: seq<RxDescriptor>): (r: seq<RxDescriptor>)
    ensures |r| == |ring| && forall s :: 0 <= s < |ring| ==> r[s] == Drained(ring[s])
  {
    seq(|ring|, s requires 0 <= s < |ring| => Drained(ring[s]))
  }

  /** The receive side after e1000_ReceiveDisable. */
  function DisableUnit(u: RxUnit, m: MacType): RxUnit
  {
    if !u.started then u
    else
      var stopped := u.(started := false, rctl := DisabledRctl(u.rctl, m, true));
      var reset := if QueueResetMac(m) then
                     stopped.(rxdctl := ClearRegBits(u.rxdctl, RxdctlQueueEnable),
                              rdh := 0, rdt := 0, curRxInd := 0)
                   else stopped;
      if m != OtherMac then reset.(ring := DrainAll(u.ring)) else reset
  }

  /** The receive side after e1000_ReceiveEnable. */
  function EnableUnit(u: RxUnit, m: MacType): RxUnit
  {
    if u.started then u
    else
      var running := u.(started := true, intStatus := 0,
                        rctl := SetRegBits(u.rctl, RctlEn | RctlBam));
      if QueueResetMac(m) then
        running.(rxdctl := SetRegBits(u.rxdctl, RxdctlQueueEnable),
                 rdt := |u.ring| - 1, rdh := 0, curRxInd := 0)
      else running
  }

  /** The receive side after the first block of e1000_SetFilter: receives stopped, then
      the filter bits or-ed into RCTL. */
  function ReconfiguredUnit(u: RxUnit, m: MacType, newFilter: set<ReceiveFilter>): RxUnit
  {
    var d := DisableUnit(u, m);
    d.(rctl := RctlForFilter(d.rctl, newFilter))
  }

  /** The receive side after e1000_SetFilter: the configuration block, the multicast
      block, then ReceiveEnable when some filter is requested and ReceiveDisable when
      none is. */
  function SetFilterUnit(u: RxUnit, m: MacType, oldFilter: set<ReceiveFilter>,
                         newFilter: set<ReceiveFilter>, listGiven: bool): RxUnit
  {
    var afterCfg := if CfgChanged(oldFilter, newFilter) then ReconfiguredUnit(u, m, newFilter)
                    else u;
    var afterMcast := if MulticastBranch(oldFilter, newFilter, listGiven)
                      then DisableUnit(afterCfg, m) else afterCfg;
    if newFilter != {} then EnableUnit(afterMcast, m) else DisableUnit(afterMcast, m)
  }

  /** Whether SetFilter passes through a stopped receive unit. */
  predicate SetFilterStops(u: RxUnit, oldFilter: set<ReceiveFilter>,
                           newFilter: set<ReceiveFilter>, listGiven: bool)
  {
    !u.started || CfgChanged(oldFilter, newFilter)
    || MulticastBranch(oldFilter, newFilter, listGiven) || newFilter == {}
  }

  /** SetFilter ends with receives running exactly when a filter is requested. When
      a filter is requested and the unit was stopped on the way, it restarts: Int_Status
      cleared, EN and BAM set, and on the 82575/82576/82580 the queue enabled with RDT at
      N-1 and RDH and cur_rx_ind at 0. */
  lemma SetFilterRestartsUnit(u: RxUnit, m: MacType, oldFilter: set<ReceiveFilter>,
                              newFilter: set<ReceiveFilter>, listGiven: bool)
    ensures SetFilterUnit(u, m, oldFilter, newFilter, listGiven).started <==> newFilter != {}
    ensures newFilter != {} && SetFilterStops(u, oldFilter, newFilter, listGiven) ==>
              var r := SetFilterUnit(u, m, oldFilter, newFilter, listGiven);
              && r.intStatus == 0 && r.rctl & (RctlEn | RctlBam) == RctlEn | RctlBam
              && (QueueResetMac(m) ==>
                    && r.rxdctl & RxdctlQueueEnable == RxdctlQueueEnable
                    && r.rdt == |u.ring| - 1 && r.rdh == 0 && r.curRxInd == 0)
  {
    var r := SetFilterUnit(u, m, oldFilter, newFilter, listGiven);
    if newFilter != {} && SetFilterStops(u, oldFilter, newFilter, listGiven) {
      var afterCfg := if CfgChanged(oldFilter, newFilter) then ReconfiguredUnit(u, m, newFilter)
                      else u;
      var afterMcast := if MulticastBranch(oldFilter, newFilter, listGiven)
                        then DisableUnit(afterCfg, m) else afterCfg;
      assert !afterMcast.started;
      assert r == EnableUnit(afterMcast, m);
      SetRegBitsSets(afterMcast.rctl, RctlEn | RctlBam);
      if QueueResetMac(m) {
        SetRegBitsSets(afterMcast.rxdctl, RxdctlQueueEnable);
      }
    }
  }

  /** SetFilter drains the receive ring exactly when the unit was running, is stopped on
      the way, and the MAC is one whose ReceiveDisable cleans up the ring; otherwise the
      descriptors are untouched. */
  lemma SetFilterRing(u: RxUnit, m: MacType, oldFilter: set<ReceiveFilter>,
                      newFilter: set<ReceiveFilter>, listGiven: bool)
    ensures SetFilterUnit(u, m, oldFilter, newFilter, listGiven).ring
            == if u.started && m != OtherMac && SetFilterStops(u, oldFilter, newFilter, listGiven)
               then DrainAll(u.ring) else u.ring
  {
  }

  /** Asking a running unit for filters that need neither block, with no new list,
      leaves the whole receive side as it was. */
  lemma SetFilterKeepsRunningUnit(u: RxUnit, m: MacType, oldFilter: set<ReceiveFilter>,
                                  newFilter: set<ReceiveFilter>, listGiven: bool)
    requires u.started && !SetFilterStops(u, oldFilter, newFilter, listGiven)
    ensures SetFilterUnit(u, m, oldFilter, newFilter, listGiven) == u
  {
  }

  /** Turning every filter off on a unit that was already stopped touches no register
      but RCTL, and RCTL only when the configuration filters change. */
  lemma SetFilterKeepsStoppedUnit(u: RxUnit, m: MacType, oldFilter: set<ReceiveFilter>,
                                  listGiven: bool)
    requires !u.started
    ensures var r := SetFilterUnit(u, m, oldFilter, {}, listGiven);
            r == u.(rctl := if CfgChanged(oldFilter, {}) then RctlForFilter(u.rctl, {})
                            else u.rctl)
  {
  }

  /** A SetFilter that changes the configuration filters and leaves receives on writes
      UPE and MPE as requested on top of the register it read, and ends with the unit
      enabled and broadcast accepted. */
  lemma ReconfiguredRctl(rctl: bv32, newFilter: set<ReceiveFilter>)
    ensures SetRegBits(RctlForFilter(rctl, newFilter), RctlEn | RctlBam) & RctlUpe
            == (if Promiscuous in newFilter then RctlUpe else rctl & RctlUpe)
    ensures SetRegBits(RctlForFilter(rctl, newFilter), RctlEn | RctlBam) & RctlMpe
            == (if AllMulticast in newFilter then RctlMpe else rctl & RctlMpe)
    ensures SetRegBits(RctlForFilter(rctl, newFilter), RctlEn | RctlBam) & (RctlEn | RctlBam)
            == RctlEn | RctlBam
  {
    ReconfiguredUpe(rctl, newFilter);
    ReconfiguredMpe(rctl, newFilter);
    RegBitsEffect(RctlForFilter(rctl, newFilter), RctlEn | RctlBam);
  }

  lemma ReconfiguredUpe(rctl: bv32, newFilter: set<ReceiveFilter>)
    ensures SetRegBits(RctlForFilter(rctl, newFilter), RctlEn | RctlBam) & RctlUpe
            == (if Promiscuous in newFilter then RctlUpe else rctl & RctlUpe)
  {
    RctlUpeBit(rctl, newFilter);
    OrKeepsBit(RctlForFilter(rctl, newFilter), RctlEn | RctlBam, RctlUpe);
  }

  lemma ReconfiguredMpe(rctl: bv32, newFilter: set<ReceiveFilter>)
    ensures SetRegBits(RctlForFilter(rctl, newFilter), RctlEn | RctlBam) & RctlMpe
            == (if AllMulticast in newFilter then RctlMpe else rctl & RctlMpe)
  {
    RctlMpeBit(rctl, newFilter);
    OrKeepsBit(RctlForFilter(rctl, newFilter), RctlEn | RctlBam, RctlMpe);
  }

  lemma OrKeepsBit(reg: bv32, mask: bv32, bit: bv32)
    requires mask & bit == 0
    ensures SetRegBits(reg, mask) & bit == reg & bit
  {
  }

  class GigAdapter {
    const txRing: array<TxDescriptor>
    const txBufferUnmappedAddr: array<nat>
    const rxRing: array<RxDescriptor>
    var curTxInd: nat
    var xmitDoneHead: nat
    var curRxInd: nat
    // The last values written to the device registers.
    var tdt: nat
    var rdt: nat
    var rdh: nat
    var rctl: bv32
    var rxdctl: bv32
    var imc: bv32
    var ims: bv32
    var intStatus: nat
    var intMask: set<InterruptClass>
    var receiveStarted: bool
    var rxFilter: set<ReceiveFilter>
    var mcastList: seq<MacAddress>
    var stats: Counter -> nat
    const macType: MacType
    const vlanEnable: bool
    const vlanTag: nat
    /** hw.mac.addr */
    const stationAddress: MacAddress
    const broadcastNodeAddress: MacAddress

    /** The receive side as one value. */
    ghost function Rx(): RxUnit
      reads this, rxRing
    {
      RxUnit(receiveStarted, intStatus, rctl, rxdctl, rdh, rdt, curRxInd, rxRing[..])
    }

    ghost predicate Valid()
      reads this
    {
      && txRing.Length == txBufferUnmappedAddr.Length > 0
      && rxRing.Length > 0
      && curTxInd < txRing.Length && xmitDoneHead < txRing.Length
      && curRxInd < rxRing.Length
      && |stationAddress| == 6 && |broadcastNodeAddress| == 6
      && forall c :: stats(c) < U64
    }

    /** The state e1000_TxRxConfigure sets up, with receives stopped (its opening
        ReceiveDisable then does nothing). No transmit buffer is owned; both transmit
        indices and TDT sit at the TDH the hardware reports; cur_rx_ind sits at the RDH it
        reports, the receive descriptors point at the local buffers and RDT is written to
        cur_rx_ind. On every MAC but the 82575/82576/82580 the queue is then enabled in
        RXDCTL and RDT moved one slot behind cur_rx_ind, so the hardware gets the whole
        ring. rctlNow and rxdctlNow are what RCTL and RXDCTL hold beforehand. */
    constructor (txCount: nat, rxBufferAddrs: seq<nat>, tdh: nat, rdhNow: nat, mac: MacType,
                 rctlNow: bv32, rxdctlNow: bv32,
                 station: MacAddress, broadcast: MacAddress, vlanOn: bool, tag: nat)
      requires 0 < txCount && tdh < txCount
      requires 0 < |rxBufferAddrs| && rdhNow < |rxBufferAddrs|
      requires |station| == 6 && |broadcast| == 6
      ensures Valid()
      ensures fresh(txRing) && fresh(txBufferUnmappedAddr) && fresh(rxRing)
      ensures txRing.Length == txCount && rxRing.Length == |rxBufferAddrs|
      ensures forall s :: 0 <= s < txCount ==> txBufferUnmappedAddr[s] == 0
      ensures RingConsistent(txBufferUnmappedAddr[..], xmitDoneHead, curTxInd, 0)
      ensures curTxInd == tdh && xmitDoneHead == tdh && tdt == tdh
      ensures curRxInd == rdhNow && rdh == rdhNow
      ensures QueueResetMac(mac) ==> rdt == rdhNow && rxdctl == rxdctlNow
      ensures !QueueResetMac(mac) ==>
                && rdt == (if rdhNow == 0 then |rxBufferAddrs| - 1 else rdhNow - 1)
                && rxdctl == SetRegBits(rxdctlNow, RxdctlQueueEnable)
                && Advance(rdt, rxRing.Length) == curRxInd
      ensures rctl == rctlNow
      ensures forall s :: 0 <= s < rxRing.Length ==>
                rxRing[s].bufferAddr == rxBufferAddrs[s] && !RxDone(rxRing[s])
      ensures !receiveStarted && rxFilter == {} && mcastList == []
      ensures macType == mac && vlanEnable == vlanOn && vlanTag == tag
      ensures stationAddress == station && broadcastNodeAddress == broadcast
    {
      txRing := new TxDescriptor[txCount](_ => TxDescriptor(0, 0, 0, 0, 0, 0));
      txBufferUnmappedAddr := new nat[txCount](_ => 0);
      // E1000_RXD_STAT_IXSM
      rxRing := new RxDescriptor[|rxBufferAddrs|](s requires 0 <= s < |rxBufferAddrs| =>
                  RxDescriptor(rxBufferAddrs[s], 0, 0x04, 0));
      curTxInd, xmitDoneHead, tdt := tdh, tdh, tdh;
      curRxInd, rdh := rdhNow, rdhNow;
      rdt := curRxInd;
      rctl, rxdctl := rctlNow, rxdctlNow;
      if !QueueResetMac(mac) {
        rxdctl := SetRegBits(rxdctlNow, RxdctlQueueEnable);
        rdt := if rdhNow == 0 then |rxBufferAddrs| - 1 else rdhNow - 1;
      }
      imc, ims := 0, 0;
      intStatus, intMask := 0, {};
      receiveStarted, rxFilter, mcastList := false, {}, [];
      stats := _ => 0;
      macType, vlanEnable, vlanTag := mac, vlanOn, tag;
      stationAddress, broadcastNodeAddress := station, broadcast;
    }

    /** e1000_Transmit. Refuses with QUEUE_FULL while the slot at cur_tx_ind still holds a
        buffer the protocol has not taken back. Otherwise records the frame's buffer
        address(es), writes one descriptor per buffer from cur_tx_ind on, advances
        cur_tx_ind past them, writes it to TDT and reports whether the hardware set DD
        on the descriptor it waits on (`ddSet`, the outcome of the bounded wait). */
    method Transmit(req: TransmitRequest, ddSet: bool) returns (status: PxeStatCode)
      requires Valid()
      modifies this`curTxInd, this`tdt, txRing, txBufferUnmappedAddr
      ensures Valid()
      ensures old(txBufferUnmappedAddr[curTxInd]) != 0 ==>
                && status == QueueFull && curTxInd == old(curTxInd) && tdt == old(tdt)
                && txRing[..] == old(txRing[..])
                && txBufferUnmappedAddr[..] == old(txBufferUnmappedAddr[..])
      ensures old(txBufferUnmappedAddr[curTxInd]) == 0 ==>
                && status == (if ddSet then StatSuccess else DeviceFailure)
                && tdt == curTxInd
      ensures old(txBufferUnmappedAddr[curTxInd]) == 0 && req.Linear? ==>
                && txRing[..] == old(txRing[..])[old(curTxInd) :=
                     LinearDescriptor(old(txRing[curTxInd]), req.frameAddr, req.dataLen,
                                      req.mediaHeaderLen, vlanEnable, vlanTag)]
                && txBufferUnmappedAddr[..]
                   == old(txBufferUnmappedAddr[..])[old(curTxInd) := req.frameAddr]
                && curTxInd == Advance(old(curTxInd), txRing.Length)
      ensures old(txBufferUnmappedAddr[curTxInd]) == 0 && req.Fragmented?
              && |req.frags| <= txRing.Length ==>
                && txRing[..] == FragmentRing(old(txRing[..]), old(curTxInd), req.frags,
                                              |req.frags|, vlanEnable, vlanTag)
                && txBufferUnmappedAddr[..] == FragmentAddresses(old(txBufferUnmappedAddr[..]),
                                                                 old(curTxInd), req.frags,
                                                                 |req.frags|)
                && curTxInd == RingSlot(old(curTxInd), |req.frags|, txRing.Length)
      ensures status != QueueFull && AddressesNonZero(req) ==>
                forall m: nat ::
                  RingConsistent(old(txBufferUnmappedAddr[..]), xmitDoneHead, old(curTxInd), m)
                  && DescriptorCount(req) <= txRing.Length - m
                  ==> RingConsistent(txBufferUnmappedAddr[..], xmitDoneHead, curTxInd,
                                     m + DescriptorCount(req))
    {
      var n := txRing.Length;
      if txBufferUnmappedAddr[curTxInd] != 0 {
        return QueueFull;
      }
      ghost var ring0, u0, c0 := txRing[..], txBufferUnmappedAddr[..], curTxInd;
      match req {
        case Fragmented(frags) =>
          PlaceFragments(frags);
        case Linear(frameAddr, dataLen, mediaHeaderLen) =>
          PlaceLinear(frameAddr, dataLen, mediaHeaderLen);
      }
      tdt := curTxInd;
      status := if ddSet then StatSuccess else DeviceFailure;
      if AddressesNonZero(req) {
        forall m: nat | RingConsistent(u0, xmitDoneHead, c0, m) && DescriptorCount(req) <= n - m
          ensures RingConsistent(txBufferUnmappedAddr[..], xmitDoneHead, curTxInd,
                                 m + DescriptorCount(req))
        {
          match req {
            case Fragmented(frags) =>
              FragmentsKeepRingConsistent(u0, xmitDoneHead, c0, m, frags);
            case Linear(frameAddr, _, _) =>
              LinearKeepsRingConsistent(u0, xmitDoneHead, c0, m, frameAddr);
          }
        }
      }
    }

    /** The fragment loop of e1000_Transmit: each fragment's address is recorded and
        described in the slot at cur_tx_ind, which then advances with wrap-around. When
        the fragments fit in the ring, the slots from the old cur_tx_ind on describe the
        frame in order and cur_tx_ind ends just past them. */
    method PlaceFragments(frags: seq<Fragment>)
      requires Valid()
      modifies this`curTxInd, txRing, txBufferUnmappedAddr
      ensures Valid()
      ensures |frags| <= txRing.Length ==>
                && txRing[..] == FragmentRing(old(txRing[..]), old(curTxInd), frags, |frags|,
                                              vlanEnable, vlanTag)
                && txBufferUnmappedAddr[..] == FragmentAddresses(old(txBufferUnmappedAddr[..]),
                                                                 old(curTxInd), frags, |frags|)
                && curTxInd == RingSlot(old(curTxInd), |frags|, txRing.Length)
    {
      var n := txRing.Length;
      ghost var ring0, u0, c0 := txRing[..], txBufferUnmappedAddr[..], curTxInd;
      var i := 0;
      while i < |frags|
        invariant 0 <= i <= |frags|
        invariant curTxInd < n
        invariant i <= n ==> curTxInd == RingSlot(c0, i, n)
        invariant i <= n ==>
                    txRing[..] == FragmentRing(ring0, c0, frags, i, vlanEnable, vlanTag)
        invariant i <= n ==> txBufferUnmappedAddr[..] == FragmentAddresses(u0, c0, frags, i)
      {
        if i < n {
          FragmentRingStep(ring0, u0, c0, frags, i, vlanEnable, vlanTag);
        }
        txBufferUnmappedAddr[curTxInd] := frags[i].fragAddr;
        txRing[curTxInd] := FragmentDescriptor(txRing[curTxInd], frags[i], i + 1 == |frags|,
                                               vlanEnable, vlanTag);
        curTxInd := Advance(curTxInd, n);
        i := i + 1;
      }
    }

    /** The unfragmented branch of e1000_Transmit: one descriptor for the whole frame at
        cur_tx_ind, which then advances with wrap-around. */
    method PlaceLinear(frameAddr: nat, dataLen: nat, mediaHeaderLen: nat)
      requires Valid()
      modifies this`curTxInd, txRing, txBufferUnmappedAddr
      ensures Valid()
      ensures txRing[..] == old(txRing[..])[old(curTxInd) :=
                LinearDescriptor(old(txRing[curTxInd]), frameAddr, dataLen, mediaHeaderLen,
                                 vlanEnable, vlanTag)]
      ensures txBufferUnmappedAddr[..] == old(txBufferUnmappedAddr[..])[old(curTxInd) := frameAddr]
      ensures curTxInd == Advance(old(curTxInd), txRing.Length)
    {
      txBufferUnmappedAddr[curTxInd] := frameAddr;
      txRing[curTxInd] := LinearDescriptor(txRing[curTxInd], frameAddr, dataLen, mediaHeaderLen,
                                           vlanEnable, vlanTag);
      curTxInd := Advance(curTxInd, txRing.Length);
    }

    /** e1000_FreeTxBuffers: hands back, in ring order from xmit_done_head, the addresses
        of the buffers the hardware has finished with, at most NumEntries of them and
        stopping after the slot before TDH; each handed-back slot is marked free and its
        status cleared, and xmit_done_head moves past them. */
    method FreeTxBuffers(numEntries: nat, tdh: nat, txBuffer: array<nat>) returns (count: nat)
      requires Valid()
      requires numEntries <= txBuffer.Length && txBuffer != txBufferUnmappedAddr
      modifies this`xmitDoneHead, txRing, txBufferUnmappedAddr, txBuffer
      ensures Valid()
      ensures count == FreeCount(old(txRing[..]), old(txBufferUnmappedAddr[..]),
                                 old(xmitDoneHead), tdh, Min(numEntries, txRing.Length))
      ensures count <= numEntries && count <= txRing.Length
      ensures txBuffer[..count] == HandedBack(old(txBufferUnmappedAddr[..]), old(xmitDoneHead), count)
      ensures txBuffer[count..] == old(txBuffer[count..])
      ensures xmitDoneHead == RingSlot(old(xmitDoneHead), count, txRing.Length)
      ensures txBufferUnmappedAddr[..]
              == ReleasedSlots(old(txBufferUnmappedAddr[..]), old(xmitDoneHead), count)
      ensures txRing[..] == ClearedStatuses(old(txRing[..]), old(xmitDoneHead), count)
    {
      ghost var ring0, u0, h0, tb0 := txRing[..], txBufferUnmappedAddr[..], xmitDoneHead,
                                      txBuffer[..];
      ghost var budget := Min(numEntries, txRing.Length);
      var i := 0;
      var stop := false;
      while !stop
        invariant FreeWalk(ring0, u0, h0, tb0, tdh, budget, i, stop, txBuffer)
        decreases budget - i + (if stop then 0 else 1)
      {
        stop, i := FreeTxStep(ring0, u0, h0, tb0, tdh, budget, numEntries, txBuffer, i);
      }
      count := i;
    }

    /** The state of the FreeTxBuffers walk after i buffers were handed back from h0: the
        first i entries of TxBuffer hold their addresses, their slots are free with a
        cleared status, xmit_done_head is just past them, and the count still to come is
        the rest of the walk (none once it has stopped). */
    ghost predicate FreeWalk(ring0: seq<TxDescriptor>, u0: seq<nat>, h0: nat, tb0: seq<nat>,
                             tdh: nat, budget: nat, i: nat, stop: bool, txBuffer: array<nat>)
      reads this, txRing, txBufferUnmappedAddr, txBuffer
    {
      && Valid()
      && |ring0| == |u0| == txRing.Length && h0 < txRing.Length && budget <= txRing.Length
      && |tb0| == txBuffer.Length && i <= budget <= |tb0|
      && xmitDoneHead == RingSlot(h0, i, txRing.Length)
      && (stop ==> FreeCount(ring0, u0, h0, tdh, budget) == i)
      && (!stop ==> FreeCount(ring0, u0, h0, tdh, budget)
                    == i + FreeCount(ring0, u0, xmitDoneHead, tdh, budget - i))
      && txBuffer[..] == HandedBack(u0, h0, i) + tb0[i..]
      && txBufferUnmappedAddr[..] == ReleasedSlots(u0, h0, i)
      && txRing[..] == ClearedStatuses(ring0, h0, i)
    }

    /** One turn of the do-while loop of e1000_FreeTxBuffers: stop when NumEntries
        buffers have been handed back, when the hardware has not finished the slot at
        xmit_done_head, or when that slot holds no address; otherwise hand the slot back
        and stop if xmit_done_head has reached TDH. */
    method FreeTxStep(ghost ring0: seq<TxDescriptor>, ghost u0: seq<nat>, ghost h0: nat,
                      ghost tb0: seq<nat>, tdh: nat, ghost budget: nat, numEntries: nat,
                      txBuffer: array<nat>, i: nat)
      returns (stop: bool, next: nat)
      requires FreeWalk(ring0, u0, h0, tb0, tdh, budget, i, false, txBuffer)
      requires budget == Min(numEntries, txRing.Length) && txBuffer != txBufferUnmappedAddr
      modifies this`xmitDoneHead, txRing, txBufferUnmappedAddr, txBuffer
      ensures FreeWalk(ring0, u0, h0, tb0, tdh, budget, next, stop, txBuffer)
      ensures next == (if stop then next else i + 1) && i <= next <= i + 1
    {
      var n := txRing.Length;
      if i < n {
        ReleaseStep(ring0, u0, h0, i);
      } else {
        // A full turn: the starting slot has been handed back already.
        assert RingOffset(xmitDoneHead, h0, n) == 0;
      }
      if i >= numEntries {
        FreeCountStops(ring0, u0, h0, xmitDoneHead, tdh, budget, i);
        return true, i;
      }
      if txRing[xmitDoneHead].status & TxdStatDd == 0 || txBufferUnmappedAddr[xmitDoneHead] == 0 {
        FreeCountStops(ring0, u0, h0, xmitDoneHead, tdh, budget, i);
        return true, i;
      }
      FreeCountTakesSlot(ring0, u0, h0, xmitDoneHead, tdh, budget, i);
      FillNext(HandedBack(u0, h0, i), tb0, u0[xmitDoneHead]);
      HandBackHead(i, txBuffer);
      next := i + 1;
      stop := tdh == xmitDoneHead;
    }

    /** One turn of the FreeTxBuffers loop: the address at xmit_done_head goes into
        TxBuffer[i], the slot is marked free with its status cleared, and xmit_done_head
        advances with wrap-around. */
    method HandBackHead(i: nat, txBuffer: array<nat>)
      requires Valid()
      requires i < txBuffer.Length && txBuffer != txBufferUnmappedAddr
      modifies this`xmitDoneHead, txRing, txBufferUnmappedAddr, txBuffer
      ensures Valid()
      ensures txBuffer[..] == old(txBuffer[..])[i := old(txBufferUnmappedAddr[xmitDoneHead])]
      ensures txBufferUnmappedAddr[..] == old(txBufferUnmappedAddr[..])[old(xmitDoneHead) := 0]
      ensures txRing[..]
              == old(txRing[..])[old(xmitDoneHead) := old(txRing[xmitDoneHead]).(status := 0)]
      ensures xmitDoneHead == Advance(old(xmitDoneHead), txRing.Length)
    {
      txBuffer[i] := txBufferUnmappedAddr[xmitDoneHead];
      txBufferUnmappedAddr[xmitDoneHead] := 0;
      txRing[xmitDoneHead] := txRing[xmitDoneHead].(status := 0);
      xmitDoneHead := Advance(xmitDoneHead, txRing.Length);
    }

    /** e1000_Receive. When the descriptor at cur_rx_ind has EOP or DD set it is consumed:
        a frame of non-zero length without errors is copied into the caller's buffer (as
        much of it as fits), classified and reported; the descriptor is then cleared,
        handed back through RDT and cur_rx_ind advances. Otherwise NO_DATA and nothing
        changes. `frame` is the content of the receive buffer the descriptor points at. */
    method Receive(frame: seq<Byte>, dest: array<Byte>, bufferLen: nat)
      returns (status: PxeStatCode, db: Option<ReceiveDb>)
      requires Valid()
      requires |frame| >= EtherHeaderLen && rxRing[curRxInd].length <= |frame|
      requires bufferLen <= dest.Length
      modifies this`curRxInd, this`rdt, rxRing, dest
      ensures Valid()
      ensures !RxDone(old(rxRing[curRxInd])) ==>
                && status == NoData && db == None && curRxInd == old(curRxInd)
                && rdt == old(rdt) && rxRing[..] == old(rxRing[..])
      ensures RxDone(old(rxRing[curRxInd])) ==>
                && rxRing[..] == old(rxRing[..])[old(curRxInd) :=
                                                  old(rxRing[curRxInd]).(status := 0, length := 0)]
                && rdt == old(curRxInd)
                && curRxInd == Advance(old(curRxInd), rxRing.Length)
      ensures status == StatSuccess <==>
                RxDone(old(rxRing[curRxInd])) && old(rxRing[curRxInd]).length != 0
                && old(rxRing[curRxInd]).errors == 0
      ensures status != StatSuccess ==> status == NoData && db == None && dest[..] == old(dest[..])
      ensures status == StatSuccess ==>
                var length := old(rxRing[curRxInd]).length;
                var copied := CopyLen(length, bufferLen);
                && dest[..copied] == frame[..copied]
                && dest[copied..] == old(dest[copied..])
                && db == Some(ReceiveDb(length, EtherHeaderLen,
                                        ClassifyFrame(frame[..6], stationAddress,
                                                      broadcastNodeAddress),
                                        frame[12] as int + 0x100 * frame[13] as int,
                                        frame[6..12], frame[..6]))
    {
      status, db := NoData, None;
      var d := rxRing[curRxInd];
      if RxDone(d) {
        if d.length != 0 && d.errors == 0 {
          var tempLen := CopyLen(d.length, bufferLen);
          MemCopy(dest, frame, tempLen);
          var destAddr := frame[..6];
          var frameType := ClassifyFrame(destAddr, stationAddress, broadcastNodeAddress);
          // The type field read as a little-endian UINT16.
          var protocol := frame[12] as int + 0x100 * frame[13] as int;
          db := Some(ReceiveDb(d.length, EtherHeaderLen, frameType, protocol, frame[6..12],
                               destAddr));
          status := StatSuccess;
        }
        rxRing[curRxInd] := d.(status := 0, length := 0);
        rdt := curRxInd;
        curRxInd := Advance(curRxInd, rxRing.Length);
      }
    }

    /** e1000_ReceiveDisable: nothing when receives are stopped already; otherwise RCTL.EN
        is cleared on the 82571, the queue is disabled and RDH, RDT and cur_rx_ind reset on
        the 82575/82576/82580, and on all four every receive descriptor is drained. */
    method ReceiveDisable()
      requires Valid()
      modifies this`rctl, this`rxdctl, this`rdh, this`rdt, this`curRxInd,
               this`receiveStarted, rxRing
      ensures Valid()
      ensures !receiveStarted
      ensures !old(receiveStarted) ==>
                && rctl == old(rctl) && rxdctl == old(rxdctl) && rdh == old(rdh)
                && rdt == old(rdt) && curRxInd == old(curRxInd) && rxRing[..] == old(rxRing[..])
      ensures rctl == DisabledRctl(old(rctl), macType, old(receiveStarted))
      ensures old(receiveStarted) && QueueResetMac(macType) ==>
                rxdctl == ClearRegBits(old(rxdctl), RxdctlQueueEnable)
                && rdh == 0 && rdt == 0 && curRxInd == 0
      ensures old(receiveStarted) && !QueueResetMac(macType) ==>
                rxdctl == old(rxdctl) && rdh == old(rdh) && rdt == old(rdt)
                && curRxInd == old(curRxInd)
      ensures old(receiveStarted) && macType != OtherMac ==>
                forall s :: 0 <= s < rxRing.Length ==> rxRing[s] == Drained(old(rxRing[s]))
      ensures old(receiveStarted) && macType == OtherMac ==> rxRing[..] == old(rxRing[..])
      ensures Rx() == DisableUnit(old(Rx()), macType)
    {
      if !receiveStarted {
        return;
      }
      if macType == Mac82571 {
        rctl := ClearRegBits(rctl, RctlEn);
      }
      if QueueResetMac(macType) {
        rxdctl := ClearRegBits(rxdctl, RxdctlQueueEnable);
        rdh, rdt := 0, 0;
        curRxInd := 0;
      }
      if macType != OtherMac {
        var i := 0;
        while i < rxRing.Length
          modifies rxRing
          invariant 0 <= i <= rxRing.Length
          invariant forall s :: 0 <= s < i ==> rxRing[s] == Drained(old(rxRing[s]))
          invariant forall s :: i <= s < rxRing.Length ==> rxRing[s] == old(rxRing[s])
        {
          rxRing[i] := rxRing[i].(length := 0, status := 0, errors := 0);
          i := i + 1;
        }
      }
      receiveStarted := false;
    }

    /** e1000_ReceiveEnable: nothing when receives are running already; otherwise clears
        Int_Status, sets RCTL.EN and RCTL.BAM, and on the 82575/82576/82580 enables the
        queue, gives the whole ring but one slot to the hardware (RDT = N-1, RDH = 0) and
        restarts cur_rx_ind at 0. */
    method ReceiveEnable()
      requires Valid()
      modifies this`intStatus, this`rctl, this`rxdctl, this`rdt, this`rdh, this`curRxInd,
               this`receiveStarted
      ensures Valid()
      ensures receiveStarted
      ensures old(receiveStarted) ==>
                && intStatus == old(intStatus) && rctl == old(rctl) && rxdctl == old(rxdctl)
                && rdt == old(rdt) && rdh == old(rdh) && curRxInd == old(curRxInd)
      ensures !old(receiveStarted) ==>
                intStatus == 0 && rctl == SetRegBits(old(rctl), RctlEn | RctlBam)
      ensures !old(receiveStarted) && QueueResetMac(macType) ==>
                && rxdctl == SetRegBits(old(rxdctl), RxdctlQueueEnable)
                && rdt == rxRing.Length - 1 && rdh == 0 && curRxInd == 0
      ensures !old(receiveStarted) && !QueueResetMac(macType) ==>
                rxdctl == old(rxdctl) && rdt == old(rdt) && rdh == old(rdh)
                && curRxInd == old(curRxInd)
      ensures rxRing[..] == old(rxRing[..])
      ensures Rx() == EnableUnit(old(Rx()), macType)
    {
      if receiveStarted {
        return;
      }
      intStatus := 0;
      rctl := SetRegBits(rctl, RctlEn | RctlBam);
      if QueueResetMac(macType) {
        rxdctl := SetRegBits(rxdctl, RxdctlQueueEnable);
        rdt := rxRing.Length - 1;
        rdh := 0;
        curRxInd := rdh;
      }
      receiveStarted := true;
    }

    /** e1000_SetFilter. Rx_Filter ends as RxFilterAfter describes; a supplied multicast
        list replaces the stored one; receives end running exactly when some filter is
        requested. When the configuration filters change and receives stay on, RCTL is
        the value read after stopping receives, with the filter bits or-ed in, then
        enabled. */
    method SetFilter(newFilter: set<ReceiveFilter>, mcastCpb: Option<seq<MacAddress>>)
      returns (r: nat)
      requires Valid()
      modifies this`rxFilter, this`mcastList, this`intStatus, this`rctl, this`rxdctl,
               this`rdt, this`rdh, this`curRxInd, this`receiveStarted, rxRing
      ensures Valid()
      ensures r == 0
      ensures rxFilter == RxFilterAfter(old(rxFilter), newFilter, mcastCpb.Some?)
      ensures receiveStarted <==> newFilter != {}
      ensures mcastList == (if mcastCpb.Some? then mcastCpb.value else old(mcastList))
      ensures CfgChanged(old(rxFilter), newFilter) && newFilter != {} ==>
                rctl == SetRegBits(RctlForFilter(DisabledRctl(old(rctl), macType,
                                                              old(receiveStarted)),
                                                 newFilter),
                                   RctlEn | RctlBam)
      ensures Rx() == SetFilterUnit(old(Rx()), macType, old(rxFilter), newFilter, mcastCpb.Some?)
    {
      var oldFilter := rxFilter;
      if CfgChanged(oldFilter, newFilter) {
        Reconfigure(newFilter);
      }
      if MulticastBranch(oldFilter, newFilter, mcastCpb.Some?) {
        UpdateMulticast(newFilter, mcastCpb);
      }
      if newFilter != {} {
        rxFilter := rxFilter + newFilter + {Unicast};
        ReceiveEnable();
      } else {
        if receiveStarted {
          ReceiveDisable();
        }
        rxFilter := newFilter;
      }
      r := 0;
    }

    /** The first block of e1000_SetFilter, run when a configuration filter changes: stop
        the receive unit, add UPE, MPE and BAM to RCTL as the new filter asks (BAM in
        every case) and take the new filter as Rx_Filter. */
    method Reconfigure(newFilter: set<ReceiveFilter>)
      requires Valid()
      modifies this`rxFilter, this`rctl, this`rxdctl, this`rdt, this`rdh, this`curRxInd,
               this`receiveStarted, rxRing
      ensures Valid()
      ensures !receiveStarted && rxFilter == newFilter
      ensures rctl == RctlForFilter(DisabledRctl(old(rctl), macType, old(receiveStarted)),
                                    newFilter)
      ensures Rx() == ReconfiguredUnit(old(Rx()), macType, newFilter)
    {
      if receiveStarted {
        ReceiveDisable();
      }
      rctl := RctlForFilter(rctl, newFilter);
      rxFilter := newFilter;
    }

    /** The second block of e1000_SetFilter, run when the filtered-multicast bit changes
        or a new list comes with the call: take the list, set or clear the
        filtered-multicast bit as the new filter says, and stop the receive unit. */
    method UpdateMulticast(newFilter: set<ReceiveFilter>, mcastCpb: Option<seq<MacAddress>>)
      requires Valid()
      modifies this`rxFilter, this`mcastList, this`rctl, this`rxdctl, this`rdt, this`rdh,
               this`curRxInd, this`receiveStarted, rxRing
      ensures Valid()
      ensures mcastList == (if mcastCpb.Some? then mcastCpb.value else old(mcastList))
      ensures rxFilter == if FilteredMulticast in newFilter then old(rxFilter) + {FilteredMulticast}
                          else old(rxFilter) - {FilteredMulticast}
      ensures !receiveStarted
      ensures rctl == DisabledRctl(old(rctl), macType, old(receiveStarted))
      ensures Rx() == DisableUnit(old(Rx()), macType)
    {
      if mcastCpb.Some? {
        mcastList := mcastCpb.value;
      }
      if FilteredMulticast in newFilter {
        rxFilter := rxFilter + {FilteredMulticast};
      } else {
        rxFilter := rxFilter - {FilteredMulticast};
      }
      if receiveStarted {
        ReceiveDisable();
      }
    }

    /** e1000_SetInterruptState: masks every interrupt through IMC, then enables through
        IMS exactly the causes of the classes in int_mask. */
    method SetInterruptState() returns (status: PxeStatCode)
      modifies this`imc, this`ims
      ensures status == StatSuccess
      ensures imc == 0xFFFF_FFFF && ims == InterruptEnableMask(intMask)
    {
      imc := 0xFFFF_FFFF;
      ims := InterruptEnableMask(intMask);
      status := StatSuccess;
    }

    /** e1000_Statistics. With a data block every software counter accumulates the
        hardware's read-to-clear count (as a UINT64) and the block reports the supported
        statistics; without one every counter is reset and nothing is reported. */
    method Statistics(dbPresent: bool, hwCounts: Counter -> nat)
      returns (status: PxeStatCode, db: Option<StatisticsDb>)
      requires Valid()
      modifies this`stats
      ensures Valid()
      ensures status == StatSuccess
      ensures forall c :: stats(c) == if dbPresent then (old(stats(c)) + hwCounts(c)) % U64 else 0
      ensures db.Some? <==> dbPresent
      ensures db.Some? ==>
                && db.value.supported == SupportedStats
                && forall i :: db.value.data(i) == StatisticValue(stats, i)
    {
      var st := stats;
      if dbPresent {
        stats := c => (st(c) + hwCounts(c)) % U64;
      } else {
        stats := _ => 0;
      }
      status := StatSuccess;
      if !dbPresent {
        db := None;
        return;
      }
      var now := stats;
      db := Some(StatisticsDb(SupportedStats, i => StatisticValue(now, i)));
    }
  }

  /** e1000_MemCopy: whole 8-byte words first, then the remaining bytes. */
  method MemCopy(dest: array<Byte>, source: seq<Byte>, count: nat)
    requires count <= dest.Length && count <= |source|
    modifies dest
    ensures dest[..count] == source[..count]
    ensures dest[count..] == old(dest[count..])
  {
    var words := count / 8;
    var w := 0;
    while w < words
      invariant 0 <= w <= words
      invariant forall k :: 0 <= k < 8 * w ==> dest[k] == source[k]
      invariant forall k :: 8 * w <= k < dest.Length ==> dest[k] == old(dest[k])
    {
      forall k | 0 <= k < 8 {
        dest[8 * w + k] := source[8 * w + k];
      }
      w := w + 1;
    }
    var b := 8 * words;
    while b < count
      invariant 8 * words <= b <= count
      invariant forall k :: 0 <= k < b ==> dest[k] == source[k]
      invariant forall k :: b <= k < dest.Length ==> dest[k] == old(dest[k])
    {
      dest[b] := source[b];
      b := b + 1;
    }
  }
}
