/** Register-level pieces of the e1000 UNDI driver, one module per concern: the receive
    filters with what SetFilter leaves in Rx_Filter, the RCTL and RXDCTL bits with the
    SetRegBits/ClearRegBits helpers, and the IMS interrupt causes with what
    SetInterruptState enables. Register values are those of Intel's e1000 shared-code
    headers (e1000_defines.h is not part of this model); the PXE receive-filter and
    interrupt flags of the UNDI interface are modelled as sets of named flags. */

module E1000Filters {

  /** The PXE_OPFLAGS_RECEIVE_FILTER_* flags (UNICAST 0x01, BROADCAST 0x02,
      FILTERED_MULTICAST 0x04, PROMISCUOUS 0x08, ALL_MULTICAST 0x10). Rx_Filter and a
      SetFilter request are the sets of flags they have on. */
  datatype ReceiveFilter = Unicast | Broadcast | FilteredMulticast | Promiscuous | AllMulticast

  /** The filters that need an RCTL reconfiguration. */
  const CfgFilter: set<ReceiveFilter> := {Promiscuous, Broadcast, AllMulticast}

  /** Whether SetFilter takes its reconfiguration branch. */
  predicate CfgChanged(oldFilter: set<ReceiveFilter>, newFilter: set<ReceiveFilter>)
  {
    oldFilter * CfgFilter != newFilter * CfgFilter
  }

  /** Whether SetFilter takes its multicast-list branch: the filtered-multicast flag
      changes, or a new list is supplied. */
  predicate MulticastBranch(oldFilter: set<ReceiveFilter>, newFilter: set<ReceiveFilter>,
                            listGiven: bool)
  {
    (FilteredMulticast in newFilter) != (FilteredMulticast in oldFilter) || listGiven
  }

  /** Rx_Filter after SetFilter, in the source's three steps: replaced by the request when
      the configuration filters differ; the filtered-multicast flag set or cleared as
      requested when the multicast branch runs; then the request plus unicast or-ed in
      when any filter is requested, or everything cleared when none is. What it keeps:
      nothing when nothing is requested; otherwise every requested filter plus unicast,
      no filter that was neither on nor requested, exactly the request plus unicast after
      a reconfiguration, and the filtered-multicast flag as requested whenever the
      multicast branch ran. */
  function RxFilterAfter(oldFilter: set<ReceiveFilter>, newFilter: set<ReceiveFilter>,
                         listGiven: bool): (r: set<ReceiveFilter>)
    ensures newFilter == {} ==> r == {}
    ensures newFilter != {} ==> newFilter + {Unicast} <= r
    ensures r <= oldFilter + newFilter + {Unicast}
    ensures newFilter != {} && CfgChanged(oldFilter, newFilter) ==> r == newFilter + {Unicast}
    ensures MulticastBranch(oldFilter, newFilter, listGiven) ==>
              (FilteredMulticast in r <==> FilteredMulticast in newFilter)
  {
    var f := if CfgChanged(oldFilter, newFilter) then newFilter else oldFilter;
    var f := if !MulticastBranch(oldFilter, newFilter, listGiven) then f
             else if FilteredMulticast in newFilter then f + {FilteredMulticast}
             else f - {FilteredMulticast};
    if newFilter != {} then f + newFilter + {Unicast} else newFilter
  }

  /** Asking again for the filters already in force, with no new list, changes nothing
      (once unicast is among them, as SetFilter always leaves it). */
  lemma {:induction false} RxFilterAfterIdempotent(filter: set<ReceiveFilter>)
    requires Unicast in filter
    ensures RxFilterAfter(filter, filter, false) == filter
  {
  }
}

module E1000Registers {
  import opened E1000Filters

  // RCTL and RXDCTL bits.
  const RctlEn: bv32 := 0x0000_0002
  const RctlUpe: bv32 := 0x0000_0008
  const RctlMpe: bv32 := 0x0000_0010
  const RctlBam: bv32 := 0x0000_8000
  const RxdctlQueueEnable: bv32 := 0x0200_0000

  /** e1000_SetRegBits on a register value. */
  function SetRegBits(reg: bv32, mask: bv32): bv32
  {
    reg | mask
  }

  /** e1000_ClearRegBits on a register value. */
  function ClearRegBits(reg: bv32, mask: bv32): bv32
  {
    reg & !mask
  }

  /** Setting turns the masked bits on and clearing turns them off; neither touches any
      other bit. */
  lemma RegBitsEffect(reg: bv32, mask: bv32)
    ensures SetRegBits(reg, mask) & mask == mask
    ensures ClearRegBits(reg, mask) & mask == 0
    ensures SetRegBits(reg, mask) & !mask == reg & !mask
    ensures ClearRegBits(reg, mask) & !mask == reg & !mask
  {
    SetRegBitsSets(reg, mask);
    ClearRegBitsClears(reg, mask);
    SetRegBitsKeepsOthers(reg, mask);
    ClearRegBitsKeepsOthers(reg, mask);
  }

  lemma SetRegBitsSets(reg: bv32, mask: bv32)
    ensures SetRegBits(reg, mask) & mask == mask
  {
  }

  lemma ClearRegBitsClears(reg: bv32, mask: bv32)
    ensures ClearRegBits(reg, mask) & mask == 0
  {
  }

  lemma SetRegBitsKeepsOthers(reg: bv32, mask: bv32)
    ensures SetRegBits(reg, mask) & !mask == reg & !mask
  {
  }

  lemma ClearRegBitsKeepsOthers(reg: bv32, mask: bv32)
    ensures ClearRegBits(reg, mask) & !mask == reg & !mask
  {
  }

  /** The RCTL bits SetFilter or-s in when the configuration filters change: UPE for
      promiscuous, BAM for broadcast, MPE for all-multicast, then BAM unconditionally (so
      the broadcast test adds nothing of its own). */
  function RctlFilterBits(newFilter: set<ReceiveFilter>): bv32
  {
    var u: bv32 := if Promiscuous in newFilter then RctlUpe else 0;
    var u := if Broadcast in newFilter then u | RctlBam else u;
    var u := if AllMulticast in newFilter then u | RctlMpe else u;
    u | RctlBam
  }

  /** The RCTL value SetFilter writes: the old value with those bits set. Nothing is
      cleared. */
  function RctlForFilter(rctl: bv32, newFilter: set<ReceiveFilter>): bv32
  {
    rctl | RctlFilterBits(newFilter)
  }

  /** UPE follows a promiscuous request, MPE an all-multicast request and BAM is always
      on; the other RCTL bits, and UPE/MPE when not requested, keep their values. */
  lemma RctlForFilterBits(rctl: bv32, newFilter: set<ReceiveFilter>)
    ensures RctlForFilter(rctl, newFilter) & RctlUpe
            == (if Promiscuous in newFilter then RctlUpe else rctl & RctlUpe)
    ensures RctlForFilter(rctl, newFilter) & RctlMpe
            == (if AllMulticast in newFilter then RctlMpe else rctl & RctlMpe)
    ensures RctlForFilter(rctl, newFilter) & RctlBam == RctlBam
    ensures RctlForFilter(rctl, newFilter) & !(RctlUpe | RctlMpe | RctlBam)
            == rctl & !(RctlUpe | RctlMpe | RctlBam)
  {
    RctlUpeBit(rctl, newFilter);
    RctlMpeBit(rctl, newFilter);
    RctlBamBit(rctl, newFilter);
    RctlOtherBits(rctl, newFilter);
  }

  lemma RctlUpeBit(rctl: bv32, newFilter: set<ReceiveFilter>)
    ensures RctlForFilter(rctl, newFilter) & RctlUpe
            == (if Promiscuous in newFilter then RctlUpe else rctl & RctlUpe)
  {
  }

  lemma RctlMpeBit(rctl: bv32, newFilter: set<ReceiveFilter>)
    ensures RctlForFilter(rctl, newFilter) & RctlMpe
            == (if AllMulticast in newFilter then RctlMpe else rctl & RctlMpe)
  {
  }

  lemma RctlBamBit(rctl: bv32, newFilter: set<ReceiveFilter>)
    ensures RctlForFilter(rctl, newFilter) & RctlBam == RctlBam
  {
  }

  lemma RctlOtherBits(rctl: bv32, newFilter: set<ReceiveFilter>)
    ensures RctlForFilter(rctl, newFilter) & !(RctlUpe | RctlMpe | RctlBam)
            == rctl & !(RctlUpe | RctlMpe | RctlBam)
  {
    var bits := RctlFilterBits(newFilter);
    if Promiscuous in newFilter && AllMulticast in newFilter {
      assert bits == 0x8018;
    } else if Promiscuous in newFilter {
      assert bits == 0x8008;
    } else if AllMulticast in newFilter {
      assert bits == 0x8010;
    } else {
      assert bits == 0x8000;
    }
    OrOfMaskedBits(rctl, bits, RctlUpe | RctlMpe | RctlBam);
  }

  lemma OrOfMaskedBits(reg: bv32, bits: bv32, mask: bv32)
    requires bits & !mask == 0
    ensures (reg | bits) & !mask == reg & !mask
  {
  }
}

module E1000Interrupts {

  /** The PXE_OPFLAGS_INTERRUPT_* classes (RECEIVE 0x01, TRANSMIT 0x02, COMMAND 0x04);
      int_mask is the set of classes it names. */
  datatype InterruptClass = ReceiveInterrupt | TransmitInterrupt | CommandInterrupt

  // E1000_ICR_* interrupt cause bits.
  const IcrTxdw: bv32 := 0x0000_0001
  const IcrTxqe: bv32 := 0x0000_0002
  const IcrLsc: bv32 := 0x0000_0004
  const IcrRxseq: bv32 := 0x0000_0008
  const IcrRxdmt0: bv32 := 0x0000_0010
  const IcrRxo: bv32 := 0x0000_0040
  const IcrRxt0: bv32 := 0x0000_0080
  const IcrRxcfg: bv32 := 0x0000_0400
  const IcrGpiEn0: bv32 := 0x0000_0800
  const IcrGpiEn1: bv32 := 0x0000_1000
  const IcrGpiEn2: bv32 := 0x0000_2000
  const IcrGpiEn3: bv32 := 0x0000_4000
  /** The causes enabled for each PXE interrupt class. */
  const ReceiveCauses: bv32 := IcrRxt0 | IcrRxseq | IcrRxdmt0 | IcrRxo | IcrRxcfg
  const TransmitCauses: bv32 := IcrTxdw | IcrTxqe
  const CommandCauses: bv32 := IcrGpiEn0 | IcrGpiEn1 | IcrGpiEn2 | IcrGpiEn3 | IcrLsc

  /** The IMS value SetInterruptState writes for an int_mask. */
  function InterruptEnableMask(intMask: set<InterruptClass>): bv32
  {
    var m: bv32 := 0;
    var m := if ReceiveInterrupt in intMask then ReceiveCauses | m else m;
    var m := if TransmitInterrupt in intMask then TransmitCauses | m else m;
    if CommandInterrupt in intMask then CommandCauses | m else m
  }

  /** Each interrupt class in int_mask enables exactly its own causes, and no other cause
      is enabled. */
  lemma InterruptEnableMaskBits(intMask: set<InterruptClass>)
    ensures var r := InterruptEnableMask(intMask);
            && r & ReceiveCauses == (if ReceiveInterrupt in intMask then ReceiveCauses else 0)
            && r & TransmitCauses == (if TransmitInterrupt in intMask then TransmitCauses else 0)
            && r & CommandCauses == (if CommandInterrupt in intMask then CommandCauses else 0)
            && r & !(ReceiveCauses | TransmitCauses | CommandCauses) == 0
  {
  }
}
