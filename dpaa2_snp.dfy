/** The DPAA2 Ethernet device as seen through EFI_SIMPLE_NETWORK_PROTOCOL: the
    EFI_SIMPLE_NETWORK_MODE fields the driver updates, the PHY flag and the list of
    frames in flight. The Management Complex (Dpaa2Mc*) and PHY (Dpaa2Phy*) calls are
    not part of this model; their results are parameters of the methods that make them,
    as are the CreatedInMc / StartedInMc flags that library keeps. */
module Dpaa2Snp {
  import opened Wrappers
  import opened Dpaa2Spec

  /** Everything the SNP operations can change, for "nothing else changes" contracts. */
  datatype DeviceView = DeviceView(
    state: SnpState,
    receiveFilterSetting: bv32,
    mCastFilterCount: nat,
    mCastFilter: seq<MacAddress>,
    mediaPresent: bool,
    phyInitialized: bool,
    txFramesInFlight: seq<TxFrame>)

  class Dpaa2EthernetDevice {
    // EFI_SIMPLE_NETWORK_MODE
    var state: SnpState
    const mediaHeaderSize: nat
    /** DPAA2_ETH_RX_FRAME_BUFFER_SIZE, the largest frame Transmit accepts. */
    const frameBufferSize: nat
    const receiveFilterMask: bv32
    var receiveFilterSetting: bv32
    const maxMCastFilterCount: nat
    var mCastFilterCount: nat
    const mCastFilter: array<MacAddress>
    var mediaPresent: bool
    const currentAddress: MacAddress
    // DPAA2_ETHERNET_DEVICE
    var phyInitialized: bool
    /** TxFramesInFlightList, head first. */
    var txFramesInFlight: seq<TxFrame>

    ghost predicate Valid()
      reads this
    {
      && mCastFilter.Length == maxMCastFilterCount
      && mCastFilterCount <= maxMCastFilterCount
      && mediaHeaderSize == EtherHeadSize
      && forall f <- txFramesInFlight :: f.uefiTxBuffer != Null
    }

    ghost function View(): DeviceView
      reads this, mCastFilter
    {
      DeviceView(state, receiveFilterSetting, mCastFilterCount, mCastFilter[..],
                 mediaPresent, phyInitialized, txFramesInFlight)
    }

    /** CreateDpaa2EthernetDevice: a copy of the device template with the generated MAC
        address. rxFrameBufferSize is DPAA2_ETH_RX_FRAME_BUFFER_SIZE. */
    constructor (socUniqueId: nat, dpmacId: nat, rxFrameBufferSize: nat)
      ensures Valid()
      ensures state == Stopped && !phyInitialized && !mediaPresent
      ensures mediaHeaderSize == EtherHeadSize && frameBufferSize == rxFrameBufferSize
      ensures receiveFilterMask == SupportedFilters && receiveFilterSetting == 0
      ensures maxMCastFilterCount == MaxMCastFilterCnt && mCastFilterCount == 0
      ensures txFramesInFlight == []
      ensures currentAddress == GenerateMacAddress(socUniqueId, dpmacId)
      ensures fresh(mCastFilter)
    {
      state := Stopped;
      mediaHeaderSize := EtherHeadSize;
      frameBufferSize := rxFrameBufferSize;
      receiveFilterMask := SupportedFilters;
      receiveFilterSetting := 0;
      maxMCastFilterCount := MaxMCastFilterCnt;
      mCastFilterCount := 0;
      mCastFilter := new MacAddress[MaxMCastFilterCnt](_ => [0, 0, 0, 0, 0, 0]);
      mediaPresent := false;
      currentAddress := GenerateMacAddress(socUniqueId, dpmacId);
      phyInitialized := false;
      txFramesInFlight := [];
    }

    /** Dpaa2SnpStart. phyInitStatus and mcCreateStatus are the results of
        Dpaa2PhyInit (made only while the PHY is uninitialised) and of
        Dpaa2McCreateNetworkInterface. */
    method Start(phyInitStatus: EfiStatus, mcCreateStatus: EfiStatus) returns (status: EfiStatus)
      requires Valid()
      modifies this
      ensures Valid()
      ensures old(state) != Stopped ==> status == AlreadyStarted && View() == old(View())
      ensures old(state) == Stopped && !old(phyInitialized) && IsError(phyInitStatus) ==>
                status == phyInitStatus && View() == old(View())
      ensures old(state) == Stopped && (old(phyInitialized) || !IsError(phyInitStatus)) ==>
                && status == mcCreateStatus
                && View() == old(View()).(
                     phyInitialized := true,
                     state := if IsError(mcCreateStatus) then Stopped else Started)
    {
      if state == Started || state == Initialized {
        return AlreadyStarted;
      }
      if !phyInitialized {
        if IsError(phyInitStatus) {
          return phyInitStatus;
        }
        phyInitialized := true;
      }
      if IsError(mcCreateStatus) {
        return mcCreateStatus;
      }
      state := Started;
      return Success;
    }

    /** Dpaa2SnpStop: tears the interface down and frees every frame still in flight,
        one list node at a time. */
    method Stop() returns (status: EfiStatus)
      requires Valid()
      modifies this
      ensures Valid()
      ensures old(state) == Stopped ==> status == NotStarted && View() == old(View())
      ensures old(state) != Stopped ==>
                status == Success
                && View() == old(View()).(state := Stopped, txFramesInFlight := [])
    {
      if state == Stopped {
        return NotStarted;
      }
      while txFramesInFlight != []
        invariant Valid() && state == old(state)
        invariant View() == old(View()).(txFramesInFlight := txFramesInFlight)
        decreases |txFramesInFlight|
      {
        txFramesInFlight := txFramesInFlight[1..];
      }
      state := Stopped;
      return Success;
    }

    /** Dpaa2SnpInitialize. A Dpaa2PhyStartup timeout (link not up) is only a warning. */
    method Initialize(phyStartupStatus: EfiStatus, mcInitStatus: EfiStatus)
      returns (status: EfiStatus)
      requires Valid()
      modifies this
      ensures Valid()
      ensures old(state) == Initialized ==> status == Success && View() == old(View())
      ensures old(state) == Stopped ==> status == NotStarted && View() == old(View())
      ensures old(state) == Started && IsError(phyStartupStatus) && phyStartupStatus != Timeout ==>
                status == phyStartupStatus && View() == old(View())
      ensures old(state) == Started && (phyStartupStatus == Success || phyStartupStatus == Timeout) ==>
                && status == mcInitStatus
                && View() == old(View()).(
                     state := if IsError(mcInitStatus) then Started else Initialized)
    {
      if state == Initialized {
        return Success;
      }
      if state == Stopped {
        return NotStarted;
      }
      if phyStartupStatus == Timeout {
        // the link is not ready yet: carry on
      } else if IsError(phyStartupStatus) {
        return phyStartupStatus;
      }
      if IsError(mcInitStatus) {
        return mcInitStatus;
      }
      state := Initialized;
      return Success;
    }

    /** Dpaa2SnpReset: after the guard, the result of re-initialising the interface in the
        Management Complex; the SNP mode is left as it was. */
    method Reset(mcInitStatus: EfiStatus) returns (status: EfiStatus)
      requires Valid()
      ensures InitializedGuard(state).Some? ==> status == InitializedGuard(state).value
      ensures state == Initialized ==> status == mcInitStatus
    {
      var guard := InitializedGuard(state);
      if guard.Some? {
        return guard.value;
      }
      return mcInitStatus;
    }

    /** Dpaa2SnpShutdown: back to Started; a running interface loses its multicast
        filters. */
    method Shutdown(startedInMc: bool) returns (status: EfiStatus)
      requires Valid()
      modifies this
      ensures Valid()
      ensures old(state) != Initialized ==>
                status == InitializedGuard(old(state)).value && View() == old(View())
      ensures old(state) == Initialized ==>
                && status == Success
                && View() == old(View()).(
                     state := Started,
                     mCastFilterCount := if startedInMc then 0 else old(mCastFilterCount))
    {
      var guard := InitializedGuard(state);
      if guard.Some? {
        return guard.value;
      }
      if startedInMc {
        mCastFilterCount := 0;
      }
      state := Started;
      return Success;
    }

    /** Dpaa2SnpReceiveFilters. mCastList is None for a NULL MCastFilter; the caller
        supplies at least mCastFilterCnt addresses in it. */
    method ReceiveFilters(enable: bv32, disable: bv32, resetMCastFilter: bool,
                          mCastFilterCnt: nat, mCastList: Option<seq<MacAddress>>)
      returns (status: EfiStatus)
      requires Valid()
      requires mCastList.Some? ==> |mCastList.value| >= mCastFilterCnt
      modifies this, mCastFilter
      ensures Valid()
      ensures old(state) != Initialized ==>
                status == InitializedGuard(old(state)).value && View() == old(View())
      ensures old(state) == Initialized
              && !ReceiveFiltersParamsValid(receiveFilterMask, maxMCastFilterCount, enable,
                                            disable, resetMCastFilter, mCastFilterCnt,
                                            mCastList.Some?) ==>
                status == InvalidParameter && View() == old(View())
      ensures old(state) == Initialized
              && ReceiveFiltersParamsValid(receiveFilterMask, maxMCastFilterCount, enable,
                                           disable, resetMCastFilter, mCastFilterCnt,
                                           mCastList.Some?) ==>
                && status == Success
                && state == old(state)
                && receiveFilterSetting
                   == UpdatedFilterSetting(old(receiveFilterSetting), enable, disable)
                && (resetMCastFilter ==> mCastFilterCount == 0
                                         && mCastFilter[..] == old(mCastFilter[..]))
                && (!resetMCastFilter && mCastFilterCnt != 0 ==>
                      && mCastFilterCount == mCastFilterCnt
                      && mCastFilter[..mCastFilterCnt] == mCastList.value[..mCastFilterCnt]
                      && mCastFilter[mCastFilterCnt..] == old(mCastFilter[mCastFilterCnt..]))
                && (!resetMCastFilter && mCastFilterCnt == 0 ==>
                      mCastFilterCount == old(mCastFilterCount)
                      && mCastFilter[..] == old(mCastFilter[..]))
                && mediaPresent == old(mediaPresent)
                && phyInitialized == old(phyInitialized)
                && txFramesInFlight == old(txFramesInFlight)
    {
      var guard := InitializedGuard(state);
      if guard.Some? {
        return guard.value;
      }
      if !ReceiveFiltersParamsValid(receiveFilterMask, maxMCastFilterCount, enable, disable,
                                    resetMCastFilter, mCastFilterCnt, mCastList.Some?) {
        return InvalidParameter;
      }
      if resetMCastFilter {
        mCastFilterCount := 0;
      } else if mCastFilterCnt != 0 {
        CopyMCastFilter(mCastList.value, mCastFilterCnt);
        mCastFilterCount := mCastFilterCnt;
      }
      receiveFilterSetting := UpdatedFilterSetting(receiveFilterSetting, enable, disable);
      return Success;
    }

    /** The loop of ReceiveFilters that replaces the first count entries of MCastFilter
        with the caller's list. */
    method CopyMCastFilter(list: seq<MacAddress>, count: nat)
      requires count <= mCastFilter.Length && count <= |list|
      modifies mCastFilter
      ensures mCastFilter[..count] == list[..count]
      ensures mCastFilter[count..] == old(mCastFilter[count..])
    {
      var i := 0;
      while i < count
        invariant 0 <= i <= count
        invariant mCastFilter[..i] == list[..i]
        invariant mCastFilter[i..] == old(mCastFilter[i..])
      {
        mCastFilter[i] := list[i];
        assert mCastFilter[..i + 1] == list[..i + 1] by {
          assert mCastFilter[..i + 1] == mCastFilter[..i] + [mCastFilter[i]];
          assert list[..i + 1] == list[..i] + [list[i]];
        }
        i := i + 1;
      }
    }

    /** Dpaa2SnpStationAddress: not implemented beyond the state guard. */
    method StationAddress(resetAddress: bool, newAddress: Option<MacAddress>)
      returns (status: EfiStatus)
      ensures IsError(status)
      ensures status == Unsupported <==> state == Initialized
      ensures state != Initialized ==> status == InitializedGuard(state).value
    {
      var guard := InitializedGuard(state);
      if guard.Some? {
        return guard.value;
      }
      return Unsupported;
    }

    /** Dpaa2SnpStatistics: not implemented beyond the state guard. */
    method Statistics(resetStatistics: bool) returns (status: EfiStatus)
      ensures IsError(status)
      ensures status == Unsupported <==> state == Initialized
      ensures state != Initialized ==> status == InitializedGuard(state).value
    {
      var guard := InitializedGuard(state);
      if guard.Some? {
        return guard.value;
      }
      return Unsupported;
    }

    /** Dpaa2SnpMcastIptoMac: not implemented beyond the state guard. */
    method MCastIpToMac(isIpv6: bool, ip: seq<bv8>) returns (status: EfiStatus)
      ensures IsError(status)
      ensures status == Unsupported <==> state == Initialized
      ensures state != Initialized ==> status == InitializedGuard(state).value
    {
      var guard := InitializedGuard(state);
      if guard.Some? {
        return guard.value;
      }
      return Unsupported;
    }

    /** Dpaa2SnpNvData: there is no NVRAM, in any state. */
    method NvData(readWrite: bool, offset: nat, buffSize: nat) returns (status: EfiStatus)
      ensures status == Unsupported
    {
      return Unsupported;
    }

    /** Dpaa2CheckTxCompletion. completedQbmanAddr is what
        Dpaa2McNetworkInterfaceCheckTxCompletion reports (None: no completion, or an
        error). The first in-flight record for that QBman buffer is unlinked and its UEFI
        buffer returned; Null is returned when nothing is recycled. */
    method CheckTxCompletion(completedQbmanAddr: Option<nat>) returns (txBuff: Address)
      requires Valid()
      modifies this
      ensures Valid()
      ensures old(txFramesInFlight) == [] || completedQbmanAddr.None? ==>
                txBuff == Null && View() == old(View())
      ensures old(txFramesInFlight) != [] && completedQbmanAddr.Some? ==>
                match FirstMatch(old(txFramesInFlight), completedQbmanAddr.value)
                case None => txBuff == Null && View() == old(View())
                case Some(k) =>
                  && txBuff == old(txFramesInFlight)[k].uefiTxBuffer
                  && View() == old(View()).(txFramesInFlight := RemoveAt(old(txFramesInFlight), k))
    {
      if txFramesInFlight == [] || completedQbmanAddr.None? {
        return Null;
      }
      var addr := completedQbmanAddr.value;
      var i := 0;
      while i < |txFramesInFlight| && txFramesInFlight[i].qbmanTxBufferAddr != addr
        invariant 0 <= i <= |txFramesInFlight|
        invariant forall j :: 0 <= j < i ==> txFramesInFlight[j].qbmanTxBufferAddr != addr
      {
        i := i + 1;
      }
      FirstMatchIsFirst(txFramesInFlight, addr, i);
      if i == |txFramesInFlight| {
        return Null;
      }
      txBuff := txFramesInFlight[i].uefiTxBuffer;
      txFramesInFlight := RemoveAt(txFramesInFlight, i);
    }

    /** Dpaa2SnpGetStatus. No interrupt status is reported. When the interface runs in the
        Management Complex, MediaPresent takes the link state and one transmit completion
        is collected; otherwise the medium is reported absent. */
    method GetStatus(startedInMc: bool, linkUp: bool, completedQbmanAddr: Option<nat>)
      returns (status: EfiStatus, irqStat: bv32, txBuff: Address)
      requires Valid()
      modifies this
      ensures Valid()
      ensures old(state) != Initialized ==>
                status == InitializedGuard(old(state)).value && View() == old(View())
                && txBuff == Null
      ensures old(state) == Initialized ==> status == Success && irqStat == 0
      ensures old(state) == Initialized && !startedInMc ==>
                txBuff == Null && View() == old(View()).(mediaPresent := false)
      ensures old(state) == Initialized && startedInMc ==>
                && mediaPresent == linkUp
                && old(View()).(mediaPresent := linkUp, txFramesInFlight := txFramesInFlight)
                   == View()
      ensures old(state) == Initialized && startedInMc
              && (old(txFramesInFlight) == [] || completedQbmanAddr.None?) ==>
                txBuff == Null && txFramesInFlight == old(txFramesInFlight)
      ensures old(state) == Initialized && startedInMc
              && old(txFramesInFlight) != [] && completedQbmanAddr.Some? ==>
                match FirstMatch(old(txFramesInFlight), completedQbmanAddr.value)
                case None => txBuff == Null && txFramesInFlight == old(txFramesInFlight)
                case Some(k) =>
                  && txBuff == old(txFramesInFlight)[k].uefiTxBuffer
                  && txFramesInFlight == RemoveAt(old(txFramesInFlight), k)
    {
      irqStat := 0;
      txBuff := Null;
      var guard := InitializedGuard(state);
      if guard.Some? {
        return guard.value, irqStat, txBuff;
      }
      if startedInMc {
        mediaPresent := linkUp;
        txBuff := CheckTxCompletion(completedQbmanAddr);
      } else {
        mediaPresent := false;
      }
      return Success, irqStat, txBuff;
    }

    /** Dpaa2SnpTransmit. poolAllocated tells whether AllocateZeroPool found memory for
        the in-flight record; mcTransmitStatus and qbmanTxBufferAddr are the result of
        Dpaa2McNetworkInterfaceTransmit. */
    method Transmit(hdrSize: nat, buffSize: nat, data: Address,
                    srcAddr: Option<MacAddress>, dstAddr: Option<MacAddress>,
                    protocol: Option<bv16>, poolAllocated: bool,
                    mcTransmitStatus: EfiStatus, qbmanTxBufferAddr: nat)
      returns (status: EfiStatus)
      requires Valid()
      modifies this
      ensures Valid()
      ensures var check := TransmitCheck(old(state), mediaHeaderSize, frameBufferSize, hdrSize,
                                         buffSize, data, dstAddr.Some?, protocol.Some?);
              && (check.Some? ==> status == check.value)
              && (check.None? && !poolAllocated ==> status == OutOfResources)
              && (check.None? && poolAllocated ==> status == mcTransmitStatus)
      ensures status == Success ==>
                View() == old(View()).(txFramesInFlight := old(txFramesInFlight)
                                                           + [TxFrame(data, qbmanTxBufferAddr)])
      ensures IsError(status) ==> View() == old(View())
    {
      var check := TransmitCheck(state, mediaHeaderSize, frameBufferSize, hdrSize, buffSize,
                                 data, dstAddr.Some?, protocol.Some?);
      if check.Some? {
        return check.value;
      }
      if !poolAllocated {
        return OutOfResources;
      }
      if IsError(mcTransmitStatus) {
        return mcTransmitStatus;
      }
      txFramesInFlight := txFramesInFlight + [TxFrame(data, qbmanTxBufferAddr)];
      return Success;
    }

    /** Dpaa2SnpReceive. buffSize is None for a NULL BuffSize; the frame itself is
        delivered by Dpaa2McNetworkInterfaceReceive, whose status is mcReceiveStatus.
        hdrSize is the media header size reported once the checks pass. */
    method Receive(buffSize: Option<nat>, data: Address, mcReceiveStatus: EfiStatus)
      returns (status: EfiStatus, hdrSize: Option<nat>)
      requires Valid()
      ensures var check := ReceiveCheck(state, mediaHeaderSize, buffSize, data);
              && (check.Some? ==> status == check.value && hdrSize.None?)
              && (check.None? ==> status == mcReceiveStatus && hdrSize == Some(EtherHeadSize))
    {
      var check := ReceiveCheck(state, mediaHeaderSize, buffSize, data);
      if check.Some? {
        return check.value, None;
      }
      return mcReceiveStatus, Some(mediaHeaderSize);
    }
  }

  /** The linear search of CheckTxCompletion stops where FirstMatch says. */
  lemma FirstMatchIsFirst(frames: seq<TxFrame>, addr: nat, i: nat)
    requires i <= |frames|
    requires forall j :: 0 <= j < i ==> frames[j].qbmanTxBufferAddr != addr
    requires i < |frames| ==> frames[i].qbmanTxBufferAddr == addr
    ensures i == |frames| ==> FirstMatch(frames, addr).None?
    ensures i < |frames| ==> FirstMatch(frames, addr) == Some(i)
  {
  }
}
