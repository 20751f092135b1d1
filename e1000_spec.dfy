/** Pure pieces of the e1000 UNDI driver: descriptor layouts and the values the driver
    writes into them, the frame classification and copy length of Receive, the ring walk
    of FreeTxBuffers and the statistics block. The class in module E1000Adapter uses these as
    its specification. Register and flag values are those of Intel's e1000 shared-code
    headers and of the UNDI interface (e1000_defines.h and the PXE UNDI definitions are
    not part of this model). */
module E1000Spec {

  const U16: nat := 0x1_0000
  const U64: nat := 0x1_0000_0000_0000_0000

  /** PXE_STATCODE values returned by the operations modelled here. */
  datatype PxeStatCode = StatSuccess | NoData | QueueFull | DeviceFailure

  /** PXE_FRAME_TYPE */
  datatype FrameType = FrameNone | FrameUnicast | FrameBroadcast | FrameMulticast | FramePromiscuous

  /** The MAC generations whose receive unit needs special handling. */
  datatype MacType = Mac82571 | Mac82575 | Mac82576 | Mac82580 | OtherMac

  /** One octet of a frame or address. */
  type Byte = x: int | 0 <= x < 0x100

  type MacAddress = seq<Byte>

  /** PXE_MAC_HEADER_LEN_ETHER */
  const EtherHeaderLen: nat := 14

  // Command bits of the legacy transmit descriptor (the cmd byte of lower.data).
  const TxdCmdEop: bv8 := 0x01
  const TxdCmdIfcs: bv8 := 0x02
  const TxdCmdRs: bv8 := 0x08
  const TxdCmdVle: bv8 := 0x40
  /** E1000_TXD_STAT_DD */
  const TxdStatDd: bv8 := 0x01
  // Receive descriptor status bits.
  const RxdStatDd: bv8 := 0x01
  const RxdStatEop: bv8 := 0x02

  /** E1000_TRANSMIT_DESCRIPTOR (legacy layout). lower.data is the union of
      length (bits 0-15), cso (16-23) and cmd (24-31); upper holds status and special. */
  datatype TxDescriptor = TxDescriptor(
    bufferAddr: nat, length: nat, cso: nat, cmd: bv8, status: bv8, special: nat)

  /** E1000_RECEIVE_DESCRIPTOR */
  datatype RxDescriptor = RxDescriptor(
    bufferAddr: nat, length: nat, status: bv8, errors: bv8)

  /** One PXE_CPB_TRANSMIT_FRAGMENTS entry. */
  datatype Fragment = Fragment(fragAddr: nat, fragLen: nat)

  // ---------------------------------------------------------------------------
  // Ring arithmetic

  /** The slot j positions after `from` in a ring of n slots (j may be n: a full turn). */
  function RingSlot(from: nat, j: nat, n: nat): (r: nat)
    requires from < n && j <= n
    ensures r < n
    ensures r == (from + j) % n
  {
    if from + j >= n then from + j - n else from + j
  }

  /** Distance from slot `from` forward to slot `s`. */
  function RingOffset(s: nat, from: nat, n: nat): (r: nat)
    requires s < n && from < n
    ensures r < n
    ensures RingSlot(from, r, n) == s
  {
    if s >= from then s - from else s + n - from
  }

  /** The driver's `idx++; if (idx >= N) idx = 0;` */
  function Advance(idx: nat, n: nat): (r: nat)
    requires idx < n
    ensures r == RingSlot(idx, 1, n)
  {
    if idx + 1 >= n then 0 else idx + 1
  }

  // ---------------------------------------------------------------------------
  // Transmit descriptors

  /** The cmd byte a finished descriptor must carry: IFCS and RS always, VLE exactly when
      VLAN tagging is on, EOP exactly on the last descriptor of the frame, nothing else. */
  predicate CommandBitsFor(cmd: bv8, last: bool, vlanEnable: bool)
  {
    && cmd & (TxdCmdIfcs | TxdCmdRs) == TxdCmdIfcs | TxdCmdRs
    && (cmd & TxdCmdEop != 0 <==> last)
    && (cmd & TxdCmdVle != 0 <==> vlanEnable)
    && cmd & !(TxdCmdIfcs | TxdCmdRs | TxdCmdEop | TxdCmdVle) == 0
  }

  /** `lower.data = IFCS | RS`, then VLE and EOP as needed, as the transmit path builds the
      command byte. */
  function TxCommand(last: bool, vlanEnable: bool): bv8
  {
    var c := TxdCmdIfcs | TxdCmdRs;
    var c := if vlanEnable then c | TxdCmdVle else c;
    if last then c | TxdCmdEop else c
  }

  /** The command byte has exactly the bits the frame calls for. */
  lemma TxCommandBits(last: bool, vlanEnable: bool)
    ensures CommandBitsFor(TxCommand(last, vlanEnable), last, vlanEnable)
  {
  }

  /** The descriptor written for a fragment by the transmit loop, AS WRITTEN: the length is
      stored first and then wiped by `lower.data = (E1000_TXD_CMD_IFCS | E1000_TXD_CMD_RS)`,
      which overwrites the whole lower dword, length included. The status is not touched. */
  function FragmentDescriptorAsWritten(d: TxDescriptor, frag: Fragment, last: bool,
                                       vlanEnable: bool, vlanTag: nat): (r: TxDescriptor)
    ensures r.length == 0 && r.bufferAddr == frag.fragAddr
  {
    var d1 := d.(bufferAddr := frag.fragAddr, length := frag.fragLen % U16);
    var d2 := d1.(length := 0, cso := 0, cmd := TxdCmdIfcs | TxdCmdRs);
    var d3 := if vlanEnable then d2.(special := vlanTag, cmd := d2.cmd | TxdCmdVle) else d2;
    if last then d3.(cmd := d3.cmd | TxdCmdEop) else d3
  }

  /** The descriptor a fragment evidently should get: the same as above, but with the
      fragment length (narrowed to UINT16) kept in the length field. */
  function FragmentDescriptor(d: TxDescriptor, frag: Fragment, last: bool,
                              vlanEnable: bool, vlanTag: nat): (r: TxDescriptor)
    ensures r.bufferAddr == frag.fragAddr && r.length == frag.fragLen % U16 && r.cso == 0
    ensures r.cmd == TxCommand(last, vlanEnable)
    ensures r.special == (if vlanEnable then vlanTag else d.special)
    ensures r.status == d.status
  {
    TxDescriptor(frag.fragAddr, frag.fragLen % U16, 0, TxCommand(last, vlanEnable), d.status,
                 if vlanEnable then vlanTag else d.special)
  }

  /** A fragment of non-zero (UINT16) length loses its length in the descriptor as written;
      for instance a 1514-byte fragment is described as 0 bytes long. Everything else
      agrees with the corrected descriptor. */
  lemma FragmentLengthLost(d: TxDescriptor, frag: Fragment, last: bool, vlanEnable: bool,
                           vlanTag: nat)
    requires frag.fragLen % U16 != 0
    ensures FragmentDescriptorAsWritten(d, frag, last, vlanEnable, vlanTag).length
            != FragmentDescriptor(d, frag, last, vlanEnable, vlanTag).length
    ensures FragmentDescriptorAsWritten(d, frag, last, vlanEnable, vlanTag)
            == FragmentDescriptor(d, frag, last, vlanEnable, vlanTag).(length := 0)
  {
  }

  /** `(UINT16)((UINT16)DataLen + MediaheaderLen)` */
  function LinearLength(dataLen: nat, mediaHeaderLen: nat): (r: nat)
    ensures r < U16
  {
    (dataLen % U16 + mediaHeaderLen) % U16
  }

  /** The linear length is the whole frame, header included, modulo 2^16. */
  lemma {:induction false} LinearLengthIsFrameLength(dataLen: nat, mediaHeaderLen: nat)
    ensures LinearLength(dataLen, mediaHeaderLen) == (dataLen + mediaHeaderLen) % U16
  {
    var q := dataLen / U16;
    assert dataLen + mediaHeaderLen == q * U16 + (dataLen % U16 + mediaHeaderLen);
  }

  /** The descriptor written for an unfragmented frame: one descriptor carrying the whole
      frame, with EOP, a cleared status and the frame length. */
  function LinearDescriptor(d: TxDescriptor, frameAddr: nat, dataLen: nat, mediaHeaderLen: nat,
                            vlanEnable: bool, vlanTag: nat): (r: TxDescriptor)
    ensures r.bufferAddr == frameAddr && r.cso == 0 && r.status == 0
    ensures r.length == (dataLen + mediaHeaderLen) % U16
    ensures r.cmd == TxCommand(true, vlanEnable)
    ensures r.special == (if vlanEnable then vlanTag else d.special)
  {
    LinearLengthIsFrameLength(dataLen, mediaHeaderLen);
    TxDescriptor(frameAddr, LinearLength(dataLen, mediaHeaderLen), 0, TxCommand(true, vlanEnable),
                 0, if vlanEnable then vlanTag else d.special)
  }

  /** A transmit request: one linear frame (PXE_CPB_TRANSMIT) or a list of fragments
      (PXE_CPB_TRANSMIT_FRAGMENTS, selected by PXE_OPFLAGS_TRANSMIT_FRAGMENTED). */
  datatype TransmitRequest =
    | Linear(frameAddr: nat, dataLen: nat, mediaHeaderLen: nat)
    | Fragmented(frags: seq<Fragment>)

  /** How many descriptors a request takes. */
  function DescriptorCount(req: TransmitRequest): nat
  {
    match req
    case Linear(_, _, _) => 1
    case Fragmented(frags) => |frags|
  }

  /** Every buffer address in the request is non-zero (0 is how the driver marks a
      free slot). */
  predicate AddressesNonZero(req: TransmitRequest)
  {
    match req
    case Linear(addr, _, _) => addr != 0
    case Fragmented(frags) => forall j :: 0 <= j < |frags| ==> frags[j].fragAddr != 0
  }

  /** The transmit ring once the first `count` fragments have been written into the slots
      from `from` on, one fragment per slot, the frame's last fragment marked EOP. */
  function FragmentRing(ring: seq<TxDescriptor>, from: nat, frags: seq<Fragment>, count: nat,
                        vlanEnable: bool, vlanTag: nat): (r: seq<TxDescriptor>)
    requires from < |ring| && count <= |frags| && count <= |ring|
    ensures |r| == |ring|
  {
    seq(|ring|, s requires 0 <= s < |ring| =>
      var o := RingOffset(s, from, |ring|);
      if o < count then FragmentDescriptor(ring[s], frags[o], o + 1 == |frags|, vlanEnable, vlanTag)
      else ring[s])
  }

  /** TxBufferUnmappedAddr once the first `count` fragment addresses have been recorded. */
  function FragmentAddresses(unmapped: seq<nat>, from: nat, frags: seq<Fragment>, count: nat)
    : (r: seq<nat>)
    requires from < |unmapped| && count <= |frags| && count <= |unmapped|
    ensures |r| == |unmapped|
  {
    seq(|unmapped|, s requires 0 <= s < |unmapped| =>
      var o := RingOffset(s, from, |unmapped|);
      if o < count then frags[o].fragAddr else unmapped[s])
  }

  /** Walking j < n slots forward from `from` and measuring back gives j again. */
  lemma OffsetOfSlot(from: nat, j: nat, n: nat)
    requires from < n && j < n
    ensures RingOffset(RingSlot(from, j, n), from, n) == j
  {
  }

  /** One turn of the fragment loop writes fragment `count` into the next slot. */
  lemma FragmentRingStep(ring: seq<TxDescriptor>, unmapped: seq<nat>, from: nat,
                         frags: seq<Fragment>, count: nat, vlanEnable: bool, vlanTag: nat)
    requires |unmapped| == |ring|
    requires from < |ring| && count < |frags| && count < |ring|
    ensures var slot := RingSlot(from, count, |ring|);
            var before := FragmentRing(ring, from, frags, count, vlanEnable, vlanTag);
            && before[slot] == ring[slot]
            && before[slot := FragmentDescriptor(before[slot], frags[count],
                                                 count + 1 == |frags|, vlanEnable, vlanTag)]
               == FragmentRing(ring, from, frags, count + 1, vlanEnable, vlanTag)
            && FragmentAddresses(unmapped, from, frags, count)[slot := frags[count].fragAddr]
               == FragmentAddresses(unmapped, from, frags, count + 1)
  {
    OffsetOfSlot(from, count, |ring|);
  }

  /** The written ring describes the frame in order: the j-th fragment sits j slots after
      `from` with its address and length, IFCS and RS set, VLE as configured and EOP on
      the last fragment only; the other slots are untouched. */
  lemma {:induction false} FragmentRingDescribesFrame(ring: seq<TxDescriptor>, from: nat,
                                                      frags: seq<Fragment>, vlanEnable: bool,
                                                      vlanTag: nat)
    requires from < |ring| && |frags| <= |ring|
    ensures var r := FragmentRing(ring, from, frags, |frags|, vlanEnable, vlanTag);
            forall j :: 0 <= j < |frags| ==>
              var d := r[RingSlot(from, j, |ring|)];
              && d.bufferAddr == frags[j].fragAddr && d.length == frags[j].fragLen % U16
              && CommandBitsFor(d.cmd, j + 1 == |frags|, vlanEnable)
    ensures var r := FragmentRing(ring, from, frags, |frags|, vlanEnable, vlanTag);
            forall s :: 0 <= s < |ring| && RingOffset(s, from, |ring|) >= |frags| ==> r[s] == ring[s]
  {
    var r := FragmentRing(ring, from, frags, |frags|, vlanEnable, vlanTag);
    forall j | 0 <= j < |frags|
      ensures var d := r[RingSlot(from, j, |ring|)];
              && d.bufferAddr == frags[j].fragAddr && d.length == frags[j].fragLen % U16
              && CommandBitsFor(d.cmd, j + 1 == |frags|, vlanEnable)
    {
      OffsetOfSlot(from, j, |ring|);
      TxCommandBits(j + 1 == |frags|, vlanEnable);
    }
  }

  // ---------------------------------------------------------------------------
  // Transmit-ring ownership

  /** The ownership picture of the transmit ring: the inFlight slots from xmit_done_head on
      hold a frame address (TxBufferUnmappedAddr != 0) and every other slot is free, and
      cur_tx_ind is the first slot after them. */
  ghost predicate RingConsistent(unmapped: seq<nat>, head: nat, cur: nat, inFlight: nat)
  {
    && |unmapped| > 0
    && head < |unmapped| && cur < |unmapped|
    && inFlight <= |unmapped|
    && cur == RingSlot(head, inFlight, |unmapped|)
    && forall s :: 0 <= s < |unmapped| ==>
         (unmapped[s] != 0 <==> RingOffset(s, head, |unmapped|) < inFlight)
  }

  /** Writing k frame addresses (all non-zero) into the k slots from cur_tx_ind on grows
      the in-flight window by k, provided slot cur_tx_ind was free and they fit in the
      free part of the ring. */
  lemma {:induction false} TransmitKeepsRingConsistent(
    u: seq<nat>, u': seq<nat>, head: nat, cur: nat, inFlight: nat, k: nat)
    requires RingConsistent(u, head, cur, inFlight)
    requires u[cur] == 0
    requires k <= |u| - inFlight
    requires |u'| == |u|
    requires forall s :: 0 <= s < |u| ==>
               if RingOffset(s, cur, |u|) < k then u'[s] != 0 else u'[s] == u[s]
    ensures RingConsistent(u', head, RingSlot(cur, k, |u|), inFlight + k)
  {
    var n := |u|;
    assert RingOffset(cur, head, n) == inFlight || inFlight == n;
    forall s | 0 <= s < n
      ensures u'[s] != 0 <==> RingOffset(s, head, n) < inFlight + k
    {
    }
  }

  /** Recording a fragmented frame's (non-zero) addresses grows the in-flight window by
      the number of fragments. */
  lemma FragmentsKeepRingConsistent(u: seq<nat>, head: nat, cur: nat, inFlight: nat,
                                    frags: seq<Fragment>)
    requires RingConsistent(u, head, cur, inFlight) && u[cur] == 0
    requires |frags| <= |u| - inFlight
    requires forall j :: 0 <= j < |frags| ==> frags[j].fragAddr != 0
    ensures RingConsistent(FragmentAddresses(u, cur, frags, |frags|), head,
                           RingSlot(cur, |frags|, |u|), inFlight + |frags|)
  {
    TransmitKeepsRingConsistent(u, FragmentAddresses(u, cur, frags, |frags|), head, cur,
                                inFlight, |frags|);
  }

  /** Recording a linear frame's (non-zero) address grows the in-flight window by one. */
  lemma LinearKeepsRingConsistent(u: seq<nat>, head: nat, cur: nat, inFlight: nat, addr: nat)
    requires RingConsistent(u, head, cur, inFlight) && u[cur] == 0
    requires 1 <= |u| - inFlight && addr != 0
    ensures RingConsistent(u[cur := addr], head, RingSlot(cur, 1, |u|), inFlight + 1)
  {
    TransmitKeepsRingConsistent(u, u[cur := addr], head, cur, inFlight, 1);
  }

  /** Handing back the first `freed` slots of the window (their addresses zeroed) shrinks
      it from the front; the freed slots must all have been in flight. */
  lemma {:induction false} FreeKeepsRingConsistent(
    u: seq<nat>, u': seq<nat>, head: nat, cur: nat, inFlight: nat, freed: nat)
    requires RingConsistent(u, head, cur, inFlight)
    requires freed <= |u|
    requires |u'| == |u|
    requires forall s :: 0 <= s < |u| ==>
               if RingOffset(s, head, |u|) < freed then u[s] != 0 && u'[s] == 0
               else u'[s] == u[s]
    ensures freed <= inFlight
    ensures RingConsistent(u', RingSlot(head, freed, |u|), cur, inFlight - freed)
  {
    var n := |u|;
    if freed > 0 {
      var last := RingSlot(head, freed - 1, n);
      assert RingOffset(last, head, n) == freed - 1;
      assert u[last] != 0;
    }
    var head' := RingSlot(head, freed, n);
    forall s | 0 <= s < n
      ensures u'[s] != 0 <==> RingOffset(s, head', n) < inFlight - freed
    {
    }
  }

  // ---------------------------------------------------------------------------
  // FreeTxBuffers

  function Min(a: nat, b: nat): nat { if a < b then a else b }

  /** Whether the slot at `head` can be handed back: the hardware has set DD and the
      driver has an address recorded for it. */
  predicate Reclaimable(ring: seq<TxDescriptor>, unmapped: seq<nat>, slot: nat)
    requires slot < |ring| == |unmapped|
  {
    ring[slot].status & TxdStatDd != 0 && unmapped[slot] != 0
  }

  /** How many buffers the FreeTxBuffers walk hands back, starting at `head`, with at most
      `budget` more to go: it stops at a slot the hardware has not finished, at a slot with
      no recorded address, after the slot just before TDH, or when the budget runs out.
      The budget is min(NumEntries, ring size); a walk that went all the way round would
      meet its own zeroed starting slot. */
  function FreeCount(ring: seq<TxDescriptor>, unmapped: seq<nat>, head: nat, tdh: nat,
                     budget: nat): (r: nat)
    requires head < |ring| == |unmapped|
    requires budget <= |ring|
    ensures r <= budget
    decreases budget
  {
    var n := |ring|;
    if budget == 0 then 0
    else if !Reclaimable(ring, unmapped, head) then 0
    else if Advance(head, n) == tdh then 1
    else 1 + FreeCount(ring, unmapped, Advance(head, n), tdh, budget - 1)
  }

  /** The walk continues past a slot it can hand back unless the next slot is TDH. */
  lemma FreeCountTakesSlot(ring: seq<TxDescriptor>, unmapped: seq<nat>, h0: nat, head: nat,
                           tdh: nat, budget: nat, i: nat)
    requires h0 < |ring| == |unmapped| && head < |ring| && i < budget <= |ring|
    requires Reclaimable(ring, unmapped, head)
    requires FreeCount(ring, unmapped, h0, tdh, budget)
             == i + FreeCount(ring, unmapped, head, tdh, budget - i)
    ensures Advance(head, |ring|) == tdh ==>
              FreeCount(ring, unmapped, h0, tdh, budget) == i + 1
    ensures Advance(head, |ring|) != tdh ==>
              FreeCount(ring, unmapped, h0, tdh, budget)
              == i + 1 + FreeCount(ring, unmapped, Advance(head, |ring|), tdh, budget - (i + 1))
  {
  }

  /** The walk stops at a slot it cannot hand back, or when its budget is spent. */
  lemma FreeCountStops(ring: seq<TxDescriptor>, unmapped: seq<nat>, h0: nat, head: nat,
                       tdh: nat, budget: nat, i: nat)
    requires h0 < |ring| == |unmapped| && head < |ring| && i <= budget <= |ring|
    requires i == budget || !Reclaimable(ring, unmapped, head)
    requires FreeCount(ring, unmapped, h0, tdh, budget)
             == i + FreeCount(ring, unmapped, head, tdh, budget - i)
    ensures FreeCount(ring, unmapped, h0, tdh, budget) == i
  {
  }

  /** What the walk hands back: every slot it passes is finished and owned, and when it
      stops short of its budget the next slot is unfinished or unowned, or is TDH. */
  lemma {:induction false} FreeCountWalk(ring: seq<TxDescriptor>, unmapped: seq<nat>, head: nat,
                                         tdh: nat, budget: nat)
    requires head < |ring| == |unmapped|
    requires budget <= |ring|
    ensures var r := FreeCount(ring, unmapped, head, tdh, budget);
            forall j :: 0 <= j < r ==> Reclaimable(ring, unmapped, RingSlot(head, j, |ring|))
    ensures var r := FreeCount(ring, unmapped, head, tdh, budget);
            r < budget ==>
              !Reclaimable(ring, unmapped, RingSlot(head, r, |ring|))
              || (r > 0 && RingSlot(head, r, |ring|) == tdh)
    decreases budget
  {
    var n := |ring|;
    if budget > 0 && Reclaimable(ring, unmapped, head) && Advance(head, n) != tdh {
      var next := Advance(head, n);
      FreeCountWalk(ring, unmapped, next, tdh, budget - 1);
      var rest := FreeCount(ring, unmapped, next, tdh, budget - 1);
      assert forall j :: 0 < j <= rest ==> RingSlot(head, j, n) == RingSlot(next, j - 1, n);
    }
  }

  /** TxBufferUnmappedAddr after the first `count` slots from `head` are handed back. */
  function ReleasedSlots(u: seq<nat>, head: nat, count: nat): (r: seq<nat>)
    requires head < |u| && count <= |u|
    ensures |r| == |u|
  {
    seq(|u|, s requires 0 <= s < |u| => if RingOffset(s, head, |u|) < count then 0 else u[s])
  }

  /** The transmit ring after the first `count` slots from `head` have had their status
      cleared. */
  function ClearedStatuses(ring: seq<TxDescriptor>, head: nat, count: nat): (r: seq<TxDescriptor>)
    requires head < |ring| && count <= |ring|
    ensures |r| == |ring|
  {
    seq(|ring|, s requires 0 <= s < |ring| =>
      if RingOffset(s, head, |ring|) < count then ring[s].(status := 0) else ring[s])
  }

  /** The addresses handed back, in ring order from `head`. */
  function HandedBack(u: seq<nat>, head: nat, count: nat): (r: seq<nat>)
    requires head < |u| && count <= |u|
    ensures |r| == count
  {
    seq(count, j requires 0 <= j < count => u[RingSlot(head, j, |u|)])
  }

  /** One turn of the FreeTxBuffers walk hands back the next slot. */
  lemma ReleaseStep(ring: seq<TxDescriptor>, u: seq<nat>, head: nat, count: nat)
    requires |ring| == |u| && head < |u| && count < |u|
    ensures var slot := RingSlot(head, count, |u|);
            && ReleasedSlots(u, head, count)[slot] == u[slot]
            && ClearedStatuses(ring, head, count)[slot] == ring[slot]
            && ReleasedSlots(u, head, count)[slot := 0] == ReleasedSlots(u, head, count + 1)
            && ClearedStatuses(ring, head, count)[slot := ring[slot].(status := 0)]
               == ClearedStatuses(ring, head, count + 1)
            && HandedBack(u, head, count) + [u[slot]] == HandedBack(u, head, count + 1)
  {
    OffsetOfSlot(head, count, |u|);
  }

  /** Writing the next entry of an output array whose first part is filled and whose
      rest is untouched. */
  lemma FillNext(filled: seq<nat>, original: seq<nat>, v: nat)
    requires |filled| < |original|
    ensures (filled + original[|filled|..])[|filled| := v]
            == (filled + [v]) + original[|filled| + 1..]
  {
  }

  /** The FreeTxBuffers walk only hands back in-flight slots, so the window shrinks from
      the front by the number handed back. */
  lemma FreeCountKeepsRingConsistent(ring: seq<TxDescriptor>, u: seq<nat>, head: nat, cur: nat,
                                     inFlight: nat, tdh: nat, budget: nat)
    requires RingConsistent(u, head, cur, inFlight)
    requires |ring| == |u| && budget <= |ring|
    ensures FreeCount(ring, u, head, tdh, budget) <= inFlight
    ensures var count := FreeCount(ring, u, head, tdh, budget);
            RingConsistent(ReleasedSlots(u, head, count), RingSlot(head, count, |u|), cur,
                           inFlight - count)
  {
    var n := |u|;
    var count := FreeCount(ring, u, head, tdh, budget);
    var u' := ReleasedSlots(u, head, count);
    FreeCountWalk(ring, u, head, tdh, budget);
    forall s | 0 <= s < n
      ensures if RingOffset(s, head, n) < count then u[s] != 0 && u'[s] == 0 else u'[s] == u[s]
    {
      if RingOffset(s, head, n) < count {
        assert Reclaimable(ring, u, RingSlot(head, RingOffset(s, head, n), n));
      }
    }
    FreeKeepsRingConsistent(u, u', head, cur, inFlight, count);
  }

  // ---------------------------------------------------------------------------
  // Receive

  /** `(INT16) CpbReceive->BufferLen`: the low 16 bits read as a two's-complement value. */
  function ToInt16(x: nat): (r: int)
    ensures -0x8000 <= r < 0x8000
    ensures r % U16 == x % U16
  {
    var v := x % U16;
    if v >= 0x8000 then v - U16 else v
  }

  /** How many bytes Receive copies, AS WRITTEN: the frame length, cut to
      `(UINT16) BufferLen` when `length > (INT16) BufferLen`. */
  function CopyLenAsWritten(length: nat, bufferLen: nat): nat
  {
    if length > ToInt16(bufferLen) then bufferLen % U16 else length
  }

  /** How many bytes Receive should copy: the frame, or as much of it as fits the caller's
      buffer. */
  function CopyLen(length: nat, bufferLen: nat): (r: nat)
    ensures r <= length && r <= bufferLen
    ensures r == length || r == bufferLen
  {
    if length > bufferLen then bufferLen else length
  }

  /** With a buffer length of 0x8000 the signed comparison sees -32768, so a 60-byte frame
      is "copied" as 32768 bytes, more than the frame; with 0x10000 it sees 0 and copies
      nothing although the buffer is large enough. */
  lemma CopyLenAsWrittenCounterexamples()
    ensures CopyLenAsWritten(60, 0x8000) == 0x8000 && CopyLen(60, 0x8000) == 60
    ensures CopyLenAsWritten(60, 0x1_0000) == 0 && CopyLen(60, 0x1_0000) == 60
  {
  }

  /** For buffers shorter than 0x8000 bytes the two agree. */
  lemma CopyLenAgreesOnSmallBuffers(length: nat, bufferLen: nat)
    requires bufferLen < 0x8000
    ensures CopyLenAsWritten(length, bufferLen) == CopyLen(length, bufferLen)
  {
  }

  /** The receive check: the descriptor has EOP or DD set. */
  predicate RxDone(d: RxDescriptor)
  {
    d.status & (RxdStatEop | RxdStatDd) != 0
  }

  /** A receive descriptor with its length, status and errors cleared, as ReceiveDisable
      leaves it: it no longer holds a frame. */
  function Drained(d: RxDescriptor): (r: RxDescriptor)
    ensures r.bufferAddr == d.bufferAddr && r.length == 0 && !RxDone(r)
  {
    d.(length := 0, status := 0, errors := 0)
  }

  /** What PXE_DB_RECEIVE reports for a frame. */
  datatype ReceiveDb = ReceiveDb(frameLen: nat, mediaHeaderLen: nat, frameType: FrameType,
                                 protocol: nat, srcAddr: MacAddress, destAddr: MacAddress)

  /** Whether an address has the IEEE 802 individual/group bit set. */
  predicate IsGroupAddress(a: MacAddress)
    requires |a| > 0
  {
    a[0] % 2 == 1
  }

  /** How Receive classifies a frame from its destination address: addressed to this
      adapter, broadcast, multicast (group bit set), or only seen because of promiscuous
      mode. */
  function ClassifyFrame(dest: MacAddress, own: MacAddress, broadcast: MacAddress): (r: FrameType)
    requires |dest| == 6
    ensures r != FrameNone
    ensures r == FrameUnicast <==> dest == own
    ensures r == FrameBroadcast <==> dest != own && dest == broadcast
    ensures r == FrameMulticast <==> dest != own && dest != broadcast && IsGroupAddress(dest)
  {
    if dest == own then FrameUnicast
    else if dest == broadcast then FrameBroadcast
    else if IsGroupAddress(dest) then FrameMulticast
    else FramePromiscuous
  }

  /** With an individual (unicast) station address and the all-ones broadcast address,
      the classification follows the individual/group bit: a group-addressed frame is
      broadcast or multicast, an individually addressed one is unicast or promiscuous. */
  lemma ClassifyFrameFollowsGroupBit(dest: MacAddress, own: MacAddress, broadcast: MacAddress)
    requires |dest| == 6 && |own| == 6 && !IsGroupAddress(own)
    requires broadcast == [0xFF, 0xFF, 0xFF, 0xFF, 0xFF, 0xFF]
    ensures IsGroupAddress(dest) <==>
              ClassifyFrame(dest, own, broadcast) in {FrameBroadcast, FrameMulticast}
  {
    if dest == broadcast {
      assert dest[0] == 0xFF;
    }
  }

  // ---------------------------------------------------------------------------
  // Statistics

  /** The e1000_hw_stats counters e1000_Statistics accumulates. */
  datatype Counter =
    | Crcerrs | Gprc | Bprc | Mprc | Roc | Prc64 | Prc127 | Prc255 | Prc511 | Prc1023
    | Prc1522 | Symerrs | Mpc | Scc | Ecol | Mcc | Latecol | Dc | Sec | Rlec | Xonrxc
    | Xontxc | Xoffrxc | Xofftxc | Fcruc | Gptc | Rnbc | Ruc | Rfc | Rjc | Tpr | Ptc64
    | Ptc127 | Ptc255 | Ptc511 | Ptc1023 | Ptc1522 | Mptc | Bptc | Tpt | Colc | Algnerrc
    | Rxerrc | Tncrs | Cexterr | Tsctc | Tsctfc

  /** The PXE_STATISTICS_* entries the adapter reports, with their indices into
      PXE_DB_STATISTICS.Data. */
  datatype StatIndex =
    | RxTotalFrames | RxGoodFrames | RxUndersizeFrames | RxOversizeFrames | RxDroppedFrames
    | RxUnicastFrames | RxBroadcastFrames | RxMulticastFrames | RxCrcErrorFrames
    | TxTotalFrames | TxGoodFrames | TxUnicastFrames | TxBroadcastFrames | TxMulticastFrames
    | Collisions

  function PxeIndex(i: StatIndex): nat
  {
    match i
    case RxTotalFrames => 0x00
    case RxGoodFrames => 0x01
    case RxUndersizeFrames => 0x02
    case RxOversizeFrames => 0x03
    case RxDroppedFrames => 0x04
    case RxUnicastFrames => 0x05
    case RxBroadcastFrames => 0x06
    case RxMulticastFrames => 0x07
    case RxCrcErrorFrames => 0x08
    case TxTotalFrames => 0x0A
    case TxGoodFrames => 0x0B
    case TxUnicastFrames => 0x0F
    case TxBroadcastFrames => 0x10
    case TxMulticastFrames => 0x11
    case Collisions => 0x14
  }

  /** Each reported statistic has its own PXE index (so each sets its own Supported
      bit), and every index fits the 64-bit Supported mask. */
  lemma PxeIndexInjective(i: StatIndex, k: StatIndex)
    ensures PxeIndex(i) < 64
    ensures PxeIndex(i) == PxeIndex(k) ==> i == k
  {
  }

  /** The Supported bits e1000_Statistics sets, as the set of their indices. */
  const SupportedStats: set<nat> :=
    {0x00, 0x01, 0x02, 0x03, 0x04, 0x05, 0x06, 0x07, 0x08, 0x0A, 0x0B, 0x0F, 0x10, 0x11, 0x14}

  /** The Supported set is exactly the indices of the reported statistics. */
  lemma SupportedStatsAreReported(k: nat)
    ensures forall i :: PxeIndex(i) in SupportedStats
    ensures k in SupportedStats ==> exists i :: PxeIndex(i) == k
  {
    if k in SupportedStats {
      var i :| i in [RxTotalFrames, RxGoodFrames, RxUndersizeFrames, RxOversizeFrames,
                     RxDroppedFrames, RxUnicastFrames, RxBroadcastFrames, RxMulticastFrames,
                     RxCrcErrorFrames, TxTotalFrames, TxGoodFrames, TxUnicastFrames,
                     TxBroadcastFrames, TxMulticastFrames, Collisions] && PxeIndex(i) == k;
    }
  }

  /** PXE_DB_STATISTICS as e1000_Statistics fills it: the Supported bits and the value at
      each reported index. */
  datatype StatisticsDb = StatisticsDb(supported: set<nat>, data: StatIndex -> nat)

  /** The value e1000_Statistics stores at each reported index; every value is a UINT64,
      so the differences and sums wrap modulo 2^64. */
  function StatisticValue(st: Counter -> nat, i: StatIndex): (v: nat)
    ensures v < U64
  {
    match i
    case RxTotalFrames => st(Tpr) % U64
    case RxGoodFrames => st(Gprc) % U64
    case RxUndersizeFrames => st(Ruc) % U64
    case RxOversizeFrames => st(Roc) % U64
    case RxDroppedFrames => st(Rnbc) % U64
    case RxUnicastFrames => (st(Gprc) - st(Bprc) - st(Mprc)) % U64
    case RxBroadcastFrames => st(Bprc) % U64
    case RxMulticastFrames => st(Mprc) % U64
    case RxCrcErrorFrames => (st(Crcerrs) + st(Algnerrc)) % U64
    case TxTotalFrames => st(Tpt) % U64
    case TxGoodFrames => st(Gptc) % U64
    case TxUnicastFrames => (st(Gptc) - st(Bptc) - st(Mptc)) % U64
    case TxBroadcastFrames => st(Bptc) % U64
    case TxMulticastFrames => st(Mptc) % U64
    case Collisions => st(Colc) % U64
  }

  /** The unicast, broadcast and multicast counts the block reports add up (modulo 2^64)
      to the good-frame count, for receive and for transmit. */
  lemma {:induction false} StatisticsPartition(st: Counter -> nat)
    ensures (StatisticValue(st, RxUnicastFrames) + StatisticValue(st, RxBroadcastFrames)
             + StatisticValue(st, RxMulticastFrames)) % U64 == StatisticValue(st, RxGoodFrames)
    ensures (StatisticValue(st, TxUnicastFrames) + StatisticValue(st, TxBroadcastFrames)
             + StatisticValue(st, TxMulticastFrames)) % U64 == StatisticValue(st, TxGoodFrames)
  {
    SumOfResidues(st(Gprc), st(Bprc), st(Mprc));
    SumOfResidues(st(Gptc), st(Bptc), st(Mptc));
  }

  lemma {:induction false} SumOfResidues(good: nat, b: nat, m: nat)
    ensures ((good - b - m) % U64 + b % U64 + m % U64) % U64 == good % U64
  {
    var x := good - b - m;
    var qx, qb, qm := x / U64, b / U64, m / U64;
    assert x == qx * U64 + x % U64;
    assert b == qb * U64 + b % U64;
    assert m == qm * U64 + m % U64;
    assert x % U64 + b % U64 + m % U64 == good - (qx + qb + qm) * U64;
  }
}
