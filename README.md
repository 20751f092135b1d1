# LS2088aRdbPkg network and clock bookkeeping in Dafny

This project models three pieces of the LS2088a RDB UEFI firmware and proves
properties of them:

- **The DPAA2 Ethernet Simple Network Protocol front end** (`Dpaa2EthernetDxe.c`).
  It has a Stopped / Started / Initialized life cycle (UEFI Specification 2.8,
  section 24.1). A state guard with fixed error codes sits in front of every
  operation. ReceiveFilters validates its parameters and updates the filter setting.
  A list of transmitted frames is kept in flight. It is appended to by Transmit,
  drained by Dpaa2CheckTxCompletion and emptied by Stop. The station MAC address is
  derived from the SoC unique ID and the DPMAC id.
  Modules: `Dpaa2Spec` (pure checks and the MAC derivation) and `Dpaa2Snp` (class
  `Dpaa2EthernetDevice`).
- **The Intel e1000 UNDI driver's descriptor rings** (`e1000.c`).
  - Transmit fills the transmit ring at `cur_tx_ind`.
  - FreeTxBuffers walks `xmit_done_head` forward and hands buffers back.
  - Receive consumes the receive ring at `cur_rx_ind` and classifies the frame.
  - Also modelled: the receive-filter bookkeeping of SetFilter, ReceiveEnable and
    ReceiveDisable, the RCTL/RXDCTL register updates, the interrupt mask, the
    statistics block and MemCopy.
  Modules:
  - `E1000Spec`: descriptor layouts, ring arithmetic, the walk of FreeTxBuffers,
    frame classification and statistics.
  - `E1000Filters`, `E1000Registers` and `E1000Interrupts`: flag sets and register bits.
  - `E1000Adapter`: class `GigAdapter`, whose rings are arrays.
- **The DS3231 real-time clock library** (`Ds3231RtcLib.c`). It covers:
  - the BCD macros;
  - the Gregorian leap-year and day-of-month checks;
  - the EFI_TIME range validation and register encoding of LibSetTime (UEFI
    Specification 2.8, section 8.3);
  - the register decoding, two-digit-year window and time-zone clamp of LibGetTime.
  Module: `Ds3231Rtc`.

The drivers change state in place, so they are classes with `modifies` frames, and
their loops carry invariants. The arrays are the rings, `TxBufferUnmappedAddr`, the
multicast filter table and the caller's buffers. Each method's `ensures` ties the new
state to a specification function of the old state. The lemmas beside those functions
prove what the driver promises: ring ownership is preserved, hand-back happens in ring
order, the frame type follows the destination address, and a time survives the
set-then-get round trip.

Hardware and firmware services are not executed. Their outcomes are parameters of the
methods that consume them. These include:
- the DD bit the transmit path waits for;
- TDH;
- the content of a receive buffer;
- the Management Complex and PHY results;
- the hardware statistics counters;
- the stored time zone.

## Model

| member | source | states |
|---|---|---|
| Ds3231Rtc.BinBcdRoundTrip | LS2088aRdbPkg/Library/Ds3231RtcLib/Ds3231RtcLib.c:32-33 | every 0..99 encodes to a well-formed BCD byte that Bin decodes back to the same number |
| Ds3231Rtc.BcdBinRoundTrip | LS2088aRdbPkg/Library/Ds3231RtcLib/Ds3231RtcLib.c:32-33 | a well-formed BCD byte decodes to 0..99 and re-encodes to itself |
| Ds3231Rtc.IsLeapYear | LS2088aRdbPkg/Library/Ds3231RtcLib/Ds3231RtcLib.c:102-120 | the nested tests are exactly the Gregorian rule: divisible by 4 and not by 100, or divisible by 400 |
| Ds3231Rtc.DayValid | LS2088aRdbPkg/Library/Ds3231RtcLib/Ds3231RtcLib.c:122-137 | for a month in 1..12 (the caller checks first), the day is valid iff 1 <= day <= the month's length, with February 29 only in leap years |
| Ds3231Rtc.TimeValid | LS2088aRdbPkg/Library/Ds3231RtcLib/Ds3231RtcLib.c:335-349 | the parameter check passes iff year, month, day, hour, minute, second, nanosecond, time zone (2047 or -1440..1440) and daylight flags are all in range |
| Ds3231Rtc.LibSetTimeWrites | LS2088aRdbPkg/Library/Ds3231RtcLib/Ds3231RtcLib.c:335-359 | an out-of-range field gives INVALID_PARAMETER and no register write; otherwise six BCD writes, year%100, month, date, hour, minute and second in that order, each to its register |
| Ds3231Rtc.DecodeYear | LS2088aRdbPkg/Library/Ds3231RtcLib/Ds3231RtcLib.c:206 | a BCD year register decodes into the 1998..2097 window with its two digits kept |
| Ds3231Rtc.ClampTimeZone | LS2088aRdbPkg/Library/Ds3231RtcLib/Ds3231RtcLib.c:255-259 | a stored zone in -1440..1440 or 2047 is kept; any other becomes EFI_UNSPECIFIED_TIMEZONE |
| Ds3231Rtc.LibGetTimeFields | LS2088aRdbPkg/Library/Ds3231RtcLib/Ds3231RtcLib.c:200-206 | the nanosecond is 0; the fields are bounded by their masks (0x7F, 0x3F, 0x1F); the zone is always valid, with defaults 2047 and 0 when nothing is stored; a BCD year lands in 1998..2097 |
| Ds3231Rtc.YearRoundTripWindow | LS2088aRdbPkg/Library/Ds3231RtcLib/Ds3231RtcLib.c:351-354 | a valid year comes back from encode-then-decode exactly when it lies in 1998..2097 |
| Ds3231Rtc.ApplyTimeWrites | LS2088aRdbPkg/Library/Ds3231RtcLib/Ds3231RtcLib.c:354-359 | the six writes, in the source's order, leave each time register holding the value written to it |
| Ds3231Rtc.SetTimeRegisters | LS2088aRdbPkg/Library/Ds3231RtcLib/Ds3231RtcLib.c:354-359 | after LibSetTime on a valid time, the registers hold the BCD form of each field, whatever they held before |
| Ds3231Rtc.GetTimeOfEncodedTime | LS2088aRdbPkg/Library/Ds3231RtcLib/Ds3231RtcLib.c:200-206 | masking and decoding registers that hold a valid time of 1998..2097 gives that time back, with nanosecond 0 |
| Ds3231Rtc.SetThenGetRoundTrip | LS2088aRdbPkg/Library/Ds3231RtcLib/Ds3231RtcLib.c:351-359 | LibSetTime then LibGetTime returns a valid 1998..2097 time unchanged except the nanosecond |
| Dpaa2Spec.InitializedGuard | LS2088aRdbPkg/Drivers/Dpaa2EthernetDxe/Dpaa2EthernetDxe.c:335-343 | the operation goes on iff the state is Initialized; Started gives DEVICE_ERROR and Stopped gives NOT_STARTED |
| Dpaa2Spec.ReceiveFiltersParamsValid | LS2088aRdbPkg/Drivers/Dpaa2EthernetDxe/Dpaa2EthernetDxe.c:474-537 | the parameters pass iff Enable and Disable stay in the mask and are disjoint, a reset comes with MULTICAST disabled and a zero count, and otherwise the count is within the maximum and a non-zero count has a list and MULTICAST enabled |
| Dpaa2Spec.UpdatedFilterSettingBits | LS2088aRdbPkg/Drivers/Dpaa2EthernetDxe/Dpaa2EthernetDxe.c:573-574 | bit by bit, a disabled filter ends off, an enabled one ends on, and any other keeps its setting |
| Dpaa2Spec.UpdatedFilterSettingWithinMask | LS2088aRdbPkg/Drivers/Dpaa2EthernetDxe/Dpaa2EthernetDxe.c:573-574 | after a validated Enable, the setting never gains a filter outside ReceiveFilterMask |
| Dpaa2Spec.TransmitCheck | LS2088aRdbPkg/Drivers/Dpaa2EthernetDxe/Dpaa2EthernetDxe.c:931-969 | Transmit goes on iff Data is non-NULL, the state is Initialized, a non-zero HdrSize matches the header size with DstAddr and Protocol present, and BuffSize lies in [MediaHeaderSize, frame buffer size]; in source order, NULL Data gives INVALID_PARAMETER, a non-Initialized state the guard's code, a bad HdrSize, DstAddr or Protocol INVALID_PARAMETER, and a BuffSize out of range BUFFER_TOO_SMALL |
| Dpaa2Spec.ReceiveCheck | LS2088aRdbPkg/Drivers/Dpaa2EthernetDxe/Dpaa2EthernetDxe.c:1040-1064 | Receive goes on iff Data and BuffSize are non-NULL, the state is Initialized and the buffer holds a media header; in source order, a NULL Data or BuffSize gives INVALID_PARAMETER, a non-Initialized state the guard's code, and a buffer shorter than the media header BUFFER_TOO_SMALL |
| Dpaa2Spec.FirstMatch | LS2088aRdbPkg/Drivers/Dpaa2EthernetDxe/Dpaa2EthernetDxe.c:801-810 | the position found holds the completed QBman address and no earlier record does; None means no record does |
| Dpaa2Spec.RemoveAt | LS2088aRdbPkg/Drivers/Dpaa2EthernetDxe/Dpaa2EthernetDxe.c:826 | unlinking the i-th record shortens the list by one and keeps the others in order |
| Dpaa2Spec.RemoveAtMultiset | LS2088aRdbPkg/Drivers/Dpaa2EthernetDxe/Dpaa2EthernetDxe.c:826 | the unlinked record, and no other, is lost from the list |
| Dpaa2Spec.LeBytesRecompose | LS2088aRdbPkg/Drivers/Dpaa2EthernetDxe/Dpaa2EthernetDxe.c:1257 | the four bytes copied from the SoC unique ID are that UINT32, least significant byte first |
| Dpaa2Spec.DpmacBytesBigEndian | LS2088aRdbPkg/Drivers/Dpaa2EthernetDxe/Dpaa2EthernetDxe.c:1258-1259 | bytes 4 and 5 are DpmacId + 1 as a big-endian 16-bit number |
| Dpaa2Spec.GenerateMacAddress | LS2088aRdbPkg/Drivers/Dpaa2EthernetDxe/Dpaa2EthernetDxe.c:1243-1275 | the address has six bytes; byte 0 has the I/G bit clear and the U/L bit set, with its other bits from the ID; bytes 1-3 come from the ID; bytes 4-5 are DpmacId + 1 big-endian |
| Dpaa2Snp.Dpaa2EthernetDevice.constructor | LS2088aRdbPkg/Drivers/Dpaa2EthernetDxe/Dpaa2EthernetDxe.c:1281-1316 | a new device is Stopped, with no filters, no multicast entries, an empty in-flight list and the generated MAC address |
| Dpaa2Snp.Dpaa2EthernetDevice.Start | LS2088aRdbPkg/Drivers/Dpaa2EthernetDxe/Dpaa2EthernetDxe.c:87-149 | not Stopped gives ALREADY_STARTED with nothing changed; a PHY-init failure is returned with nothing changed; otherwise the PHY is marked initialised and the state becomes Started iff the interface was created |
| Dpaa2Snp.Dpaa2EthernetDevice.Stop | LS2088aRdbPkg/Drivers/Dpaa2EthernetDxe/Dpaa2EthernetDxe.c:163-228 | Stopped gives NOT_STARTED with nothing changed; otherwise the state becomes Stopped, the in-flight list ends empty and nothing else changes |
| Dpaa2Snp.Dpaa2EthernetDevice.Initialize | LS2088aRdbPkg/Drivers/Dpaa2EthernetDxe/Dpaa2EthernetDxe.c:244-302 | Initialized gives SUCCESS and Stopped gives NOT_STARTED, both with nothing changed; from Started a PHY failure other than a timeout is returned, otherwise the state becomes Initialized iff the Management Complex init succeeds |
| Dpaa2Snp.Dpaa2EthernetDevice.Reset | LS2088aRdbPkg/Drivers/Dpaa2EthernetDxe/Dpaa2EthernetDxe.c:316-353 | the guard's code when not Initialized, otherwise the re-initialisation result |
| Dpaa2Snp.Dpaa2EthernetDevice.Shutdown | LS2088aRdbPkg/Drivers/Dpaa2EthernetDxe/Dpaa2EthernetDxe.c:367-409 | the guard's code with nothing changed when not Initialized; otherwise the state goes back to Started (multicast count cleared when the interface was running) and nothing else changes |
| Dpaa2Snp.Dpaa2EthernetDevice.ReceiveFilters | LS2088aRdbPkg/Drivers/Dpaa2EthernetDxe/Dpaa2EthernetDxe.c:437-577 | guard and invalid parameters leave everything unchanged; on success the setting is (old or Enable) and not Disable, a reset zeroes the count, a non-zero count copies the list into MCastFilter[0..cnt) and sets the count, and the rest is unchanged |
| Dpaa2Snp.Dpaa2EthernetDevice.CopyMCastFilter | LS2088aRdbPkg/Drivers/Dpaa2EthernetDxe/Dpaa2EthernetDxe.c:564-568 | the first cnt entries become the caller's list; the rest of the table is untouched |
| Dpaa2Snp.Dpaa2EthernetDevice.StationAddress | LS2088aRdbPkg/Drivers/Dpaa2EthernetDxe/Dpaa2EthernetDxe.c:596-632 | always an error: UNSUPPORTED exactly when Initialized, else the guard's code |
| Dpaa2Snp.Dpaa2EthernetDevice.Statistics | LS2088aRdbPkg/Drivers/Dpaa2EthernetDxe/Dpaa2EthernetDxe.c:646-683 | always an error: UNSUPPORTED exactly when Initialized, else the guard's code |
| Dpaa2Snp.Dpaa2EthernetDevice.MCastIpToMac | LS2088aRdbPkg/Drivers/Dpaa2EthernetDxe/Dpaa2EthernetDxe.c:697-734 | always an error: UNSUPPORTED exactly when Initialized, else the guard's code |
| Dpaa2Snp.Dpaa2EthernetDevice.NvData | LS2088aRdbPkg/Drivers/Dpaa2EthernetDxe/Dpaa2EthernetDxe.c:748-765 | UNSUPPORTED in every state |
| Dpaa2Snp.Dpaa2EthernetDevice.CheckTxCompletion | LS2088aRdbPkg/Drivers/Dpaa2EthernetDxe/Dpaa2EthernetDxe.c:775-829 | with an empty list or no completion, NULL and nothing changed; otherwise the first record for the completed QBman buffer is unlinked and its UEFI buffer returned, or NULL with the list unchanged when none matches |
| Dpaa2Snp.Dpaa2EthernetDevice.GetStatus | LS2088aRdbPkg/Drivers/Dpaa2EthernetDxe/Dpaa2EthernetDxe.c:786-891 | the guard's code with nothing changed when not Initialized; otherwise SUCCESS with no interrupt bits; MediaPresent follows the link (FALSE when the interface is not running in the Management Complex); when it runs there, the first in-flight record for the completed QBman buffer is unlinked and its buffer recycled, and with no completion or no matching record TxBuf is NULL and the list unchanged |
| Dpaa2Snp.Dpaa2EthernetDevice.Transmit | LS2088aRdbPkg/Drivers/Dpaa2EthernetDxe/Dpaa2EthernetDxe.c:905-1003 | the status is the first failing check, OUT_OF_RESOURCES, or the Management Complex result; on any failure nothing changes; on success exactly the record (Data, QBman address) is appended at the tail |
| Dpaa2Snp.Dpaa2EthernetDevice.Receive | LS2088aRdbPkg/Drivers/Dpaa2EthernetDxe/Dpaa2EthernetDxe.c:1017-1083 | the first failing check's code, or the Management Complex result with the Ethernet header size reported |
| E1000Filters.RxFilterAfter | LS2088aRdbPkg/Drivers/LanIntelE1000Dxe/e1000.c:1722-1885 | an empty request ends with no filter; otherwise every requested filter plus UNICAST is on and nothing that was neither on nor requested; after a reconfiguration exactly request + UNICAST; FILTERED_MULTICAST as requested whenever the multicast branch ran |
| E1000Filters.RxFilterAfterIdempotent | LS2088aRdbPkg/Drivers/LanIntelE1000Dxe/e1000.c:1722-1885 | requesting the filters already in force (UNICAST among them), with no new list, leaves Rx_Filter unchanged |
| E1000Registers.RegBitsEffect | LS2088aRdbPkg/Drivers/LanIntelE1000Dxe/e1000.c:2200-2258 | SetRegBits turns the mask's bits on and ClearRegBits turns them off; neither changes any other bit |
| E1000Registers.RctlForFilterBits | LS2088aRdbPkg/Drivers/LanIntelE1000Dxe/e1000.c:1773-1798 | the RCTL written on reconfiguration has UPE iff promiscuous was asked or UPE was already set, MPE likewise for all-multicast, BAM always, and every other bit as read |
| E1000Adapter.ReconfiguredRctl | LS2088aRdbPkg/Drivers/LanIntelE1000Dxe/e1000.c:1773-1798 | after reconfiguring and re-enabling, UPE and MPE follow the request on top of the value read, and EN and BAM are on |
| E1000Interrupts.InterruptEnableMaskBits | LS2088aRdbPkg/Drivers/LanIntelE1000Dxe/e1000.c:892-957 | each class in int_mask enables exactly its own interrupt causes, and no other cause is enabled |
| E1000Spec.RingSlot | LS2088aRdbPkg/Drivers/LanIntelE1000Dxe/e1000.c:580-583 | the slot j after `from` is (from + j) mod N and stays below N |
| E1000Spec.Advance | LS2088aRdbPkg/Drivers/LanIntelE1000Dxe/e1000.c:2187-2190 | the increment-then-wrap of the ring indices is the next slot modulo N |
| E1000Spec.TxCommandBits | LS2088aRdbPkg/Drivers/LanIntelE1000Dxe/e1000.c:561-575 | a descriptor's command byte has IFCS and RS, VLE iff VLAN tagging is on, EOP iff it ends the frame, and no other bit |
| E1000Spec.FragmentDescriptor | LS2088aRdbPkg/Drivers/LanIntelE1000Dxe/e1000.c:549-585 | a fragment's descriptor carries its address, its UINT16 length, those command bits and the VLAN tag when enabled; its status is not touched |
| E1000Spec.FragmentLengthLost | LS2088aRdbPkg/Drivers/LanIntelE1000Dxe/e1000.c:561-562 | as written, a fragment of non-zero length is described with length 0; nothing else differs from the corrected descriptor |
| E1000Spec.LinearLengthIsFrameLength | LS2088aRdbPkg/Drivers/LanIntelE1000Dxe/e1000.c:614 | the linear length is DataLen + MediaheaderLen modulo 2^16 |
| E1000Spec.LinearDescriptor | LS2088aRdbPkg/Drivers/LanIntelE1000Dxe/e1000.c:587-633 | the one descriptor of a linear frame carries the frame's address and whole length, EOP, a cleared status and VLE/tag as configured |
| E1000Spec.FragmentRingDescribesFrame | LS2088aRdbPkg/Drivers/LanIntelE1000Dxe/e1000.c:549-585 | after the fragment loop, the j-th fragment sits j slots after cur_tx_ind with its address and length, EOP only on the last; every other slot is untouched |
| E1000Spec.TransmitKeepsRingConsistent | LS2088aRdbPkg/Drivers/LanIntelE1000Dxe/e1000.c:508-585 | recording k non-zero addresses from a free cur_tx_ind grows the in-flight window by k, and cur_tx_ind stays just past it |
| E1000Spec.FreeKeepsRingConsistent | LS2088aRdbPkg/Drivers/LanIntelE1000Dxe/e1000.c:2166-2190 | handing back the first slots of the window, all of which were in flight, shrinks the window from the front |
| E1000Spec.FreeCountWalk | LS2088aRdbPkg/Drivers/LanIntelE1000Dxe/e1000.c:2159-2195 | every slot the walk hands back has DD set and a recorded address; a walk that stops short of its budget stops at an unfinished or unowned slot, or at TDH |
| E1000Spec.FreeCountKeepsRingConsistent | LS2088aRdbPkg/Drivers/LanIntelE1000Dxe/e1000.c:2159-2195 | FreeTxBuffers hands back no more than are in flight, and the ownership picture holds afterwards with xmit_done_head moved past them |
| E1000Spec.CopyLen | LS2088aRdbPkg/Drivers/LanIntelE1000Dxe/e1000.c:801-803 | the copied length is the frame length, or the buffer length when the frame does not fit; never more than either |
| E1000Spec.CopyLenAsWrittenCounterexamples | LS2088aRdbPkg/Drivers/LanIntelE1000Dxe/e1000.c:801-803 | with the signed INT16 comparison, a 0x8000-byte buffer copies 32768 bytes of a 60-byte frame and a 0x10000-byte buffer copies none |
| E1000Spec.CopyLenAgreesOnSmallBuffers | LS2088aRdbPkg/Drivers/LanIntelE1000Dxe/e1000.c:801-803 | for buffers shorter than 0x8000 bytes the code as written and the corrected length agree |
| E1000Spec.Drained | LS2088aRdbPkg/Drivers/LanIntelE1000Dxe/e1000.c:1949-1955 | a drained receive descriptor keeps its buffer, has length 0 and no longer reports a frame |
| E1000Spec.ClassifyFrame | LS2088aRdbPkg/Drivers/LanIntelE1000Dxe/e1000.c:832-851 | UNICAST iff the destination is the station address, BROADCAST iff it is otherwise the broadcast address, MULTICAST iff it is neither and has the group bit, PROMISCUOUS otherwise |
| E1000Spec.ClassifyFrameFollowsGroupBit | LS2088aRdbPkg/Drivers/LanIntelE1000Dxe/e1000.c:832-851 | with an individual station address and the all-ones broadcast, a frame is broadcast or multicast iff its destination has the group bit |
| E1000Spec.PxeIndexInjective | LS2088aRdbPkg/Drivers/LanIntelE1000Dxe/e1000.c:424-457 | each reported statistic has its own index below 64 in the Supported mask |
| E1000Spec.SupportedStatsAreReported | LS2088aRdbPkg/Drivers/LanIntelE1000Dxe/e1000.c:424-457 | the Supported bits are exactly the indices of the reported statistics |
| E1000Spec.StatisticValue | LS2088aRdbPkg/Drivers/LanIntelE1000Dxe/e1000.c:424-457 | every reported value is a UINT64 |
| E1000Spec.StatisticsPartition | LS2088aRdbPkg/Drivers/LanIntelE1000Dxe/e1000.c:424-457 | the reported unicast, broadcast and multicast counts add up, modulo 2^64, to the good-frame count, for receive and for transmit |
| E1000Adapter.GigAdapter.constructor | LS2088aRdbPkg/Drivers/LanIntelE1000Dxe/e1000.c:1526-1719 | the rings as TxRxConfigure leaves them: no transmit buffer owned (an empty in-flight window), transmit indices and TDT at TDH, cur_rx_ind at RDH, receive descriptors on their buffers holding no frame; RDT stays at cur_rx_ind on the 82575/6/80, while on every other MAC RXDCTL gains QUEUE_ENABLE and RDT sits one slot behind cur_rx_ind (N-1 when it is 0), giving the hardware the whole ring |
| E1000Adapter.GigAdapter.Transmit | LS2088aRdbPkg/Drivers/LanIntelE1000Dxe/e1000.c:464-683 | an owned slot at cur_tx_ind gives QUEUE_FULL with no ring, slot or index changed; otherwise the descriptors and addresses are those of FragmentRing / LinearDescriptor, cur_tx_ind advances by the descriptor count modulo N, TDT is written with it, the status follows DD, and the ownership window grows by the descriptor count |
| E1000Adapter.GigAdapter.PlaceFragments | LS2088aRdbPkg/Drivers/LanIntelE1000Dxe/e1000.c:549-585 | the fragment loop leaves the ring, the address table and cur_tx_ind as FragmentRing, FragmentAddresses and RingSlot say |
| E1000Adapter.GigAdapter.PlaceLinear | LS2088aRdbPkg/Drivers/LanIntelE1000Dxe/e1000.c:587-633 | exactly the slot at cur_tx_ind changes, to the linear descriptor and the frame's address, and cur_tx_ind advances by one |
| E1000Adapter.GigAdapter.FreeTxBuffers | LS2088aRdbPkg/Drivers/LanIntelE1000Dxe/e1000.c:2122-2197 | returns the FreeCount of the walk, at most NumEntries; TxBuffer[0..count) holds the handed-back addresses in ring order from xmit_done_head, and the rest is untouched; exactly those slots are zeroed with their status cleared; xmit_done_head advances by count modulo N |
| E1000Adapter.GigAdapter.FreeTxStep | LS2088aRdbPkg/Drivers/LanIntelE1000Dxe/e1000.c:2160-2195 | one turn of the do-while keeps the walk's invariant: the count still to come is the rest of the walk, and it advances by one or stops |
| E1000Adapter.GigAdapter.HandBackHead | LS2088aRdbPkg/Drivers/LanIntelE1000Dxe/e1000.c:2175-2190 | the address at xmit_done_head goes to TxBuffer[i]; that slot is freed with its status cleared; xmit_done_head advances |
| E1000Adapter.GigAdapter.Receive | LS2088aRdbPkg/Drivers/LanIntelE1000Dxe/e1000.c:686-889 | without EOP or DD, NO_DATA and nothing changes; otherwise the descriptor's status and length are cleared, RDT takes the slot and cur_rx_ind advances; SUCCESS iff the length is non-zero with no errors, in which case CopyLen bytes are copied and the frame is reported with its length, type, protocol and addresses |
| E1000Adapter.GigAdapter.ReceiveDisable | LS2088aRdbPkg/Drivers/LanIntelE1000Dxe/e1000.c:1888-1960 | a no-op when stopped; otherwise receives end stopped, RCTL.EN is cleared on the 82571, the queue is disabled with RDH/RDT/cur_rx_ind reset on the 82575/6/80, and every descriptor is drained on those four MACs; as one value, the receive side is DisableUnit of the old one |
| E1000Adapter.GigAdapter.ReceiveEnable | LS2088aRdbPkg/Drivers/LanIntelE1000Dxe/e1000.c:1963-2021 | a no-op when running; otherwise receives end running, Int_Status is cleared, RCTL gains EN and BAM, and on the 82575/6/80 the queue is enabled with RDT = N-1 and RDH = cur_rx_ind = 0; the ring is untouched, and as one value the receive side is EnableUnit of the old one |
| E1000Adapter.GigAdapter.SetFilter | LS2088aRdbPkg/Drivers/LanIntelE1000Dxe/e1000.c:1722-1885 | returns 0; Rx_Filter ends as RxFilterAfter says; a supplied list replaces the stored one; receives end running iff some filter is asked for; after a reconfiguration with receives on, RCTL is the read value with the filter bits, EN and BAM set; the whole receive side (Int_Status, RCTL, RXDCTL, RDH, RDT, cur_rx_ind, ring) ends as SetFilterUnit says |
| E1000Adapter.SetFilterRestartsUnit | LS2088aRdbPkg/Drivers/LanIntelE1000Dxe/e1000.c:1867-1884 | receives end running iff a filter is requested; a unit stopped on the way restarts with Int_Status 0, EN and BAM on, and on the 82575/6/80 QUEUE_ENABLE on, RDT = N-1 and RDH = cur_rx_ind = 0 |
| E1000Adapter.SetFilterRing | LS2088aRdbPkg/Drivers/LanIntelE1000Dxe/e1000.c:1754-1884 | the ring is drained exactly when the unit was running, SetFilter stops it and the MAC is one of the four whose ReceiveDisable cleans up; otherwise no descriptor changes |
| E1000Adapter.SetFilterKeepsRunningUnit | LS2088aRdbPkg/Drivers/LanIntelE1000Dxe/e1000.c:1754-1872 | on a running unit, a request that takes neither block and asks for some filter leaves every receive register, index and descriptor as it was |
| E1000Adapter.SetFilterKeepsStoppedUnit | LS2088aRdbPkg/Drivers/LanIntelE1000Dxe/e1000.c:1754-1884 | clearing every filter on a stopped unit changes nothing but RCTL, and RCTL only when the configuration filters change |
| E1000Adapter.GigAdapter.Reconfigure | LS2088aRdbPkg/Drivers/LanIntelE1000Dxe/e1000.c:1764-1799 | receives are stopped, Rx_Filter becomes the request and RCTL is the value read after stopping, with the filter bits or-ed in; the rest of the receive side is as ReceiveDisable leaves it (ReconfiguredUnit), so untouched when receives were off |
| E1000Adapter.GigAdapter.UpdateMulticast | LS2088aRdbPkg/Drivers/LanIntelE1000Dxe/e1000.c:1804-1865 | a supplied list replaces the stored one, FILTERED_MULTICAST is set or cleared as requested, and the receive side is as ReceiveDisable leaves it (DisableUnit), so untouched when receives were off |
| E1000Adapter.GigAdapter.SetInterruptState | LS2088aRdbPkg/Drivers/LanIntelE1000Dxe/e1000.c:892-957 | IMC masks every cause and IMS enables the causes of the classes in int_mask; SUCCESS |
| E1000Adapter.GigAdapter.Statistics | LS2088aRdbPkg/Drivers/LanIntelE1000Dxe/e1000.c:314-460 | with a data block each counter accumulates the hardware's count modulo 2^64, and the block reports the supported set and each value; without one every counter is reset and nothing is reported |
| E1000Adapter.MemCopy | LS2088aRdbPkg/Drivers/LanIntelE1000Dxe/e1000.c:210-272 | the 8-byte word loop and the byte loop copy exactly the first count bytes and leave the rest of the destination untouched |

## Findings

| source | as written | input that shows it | evidently intended | confidence | as-written member | corrected member |
|---|---|---|---|---|---|---|
| LS2088aRdbPkg/Drivers/LanIntelE1000Dxe/e1000.c:561-562 | the fragment loop stores `length = FragLen`, then assigns `lower.data = IFCS \| RS`, which overwrites the whole lower dword, length included | any fragment with FragLen % 65536 != 0, e.g. a 1514-byte fragment, is described as 0 bytes long | the descriptor keeps the fragment length and ORs in the command bits | high (descriptor union layout from the Intel legacy format); not executed | E1000Spec.FragmentDescriptorAsWritten (lemma E1000Spec.FragmentLengthLost) | E1000Spec.FragmentDescriptor |
| LS2088aRdbPkg/Drivers/LanIntelE1000Dxe/e1000.c:801-803 | the copy length is cut to the buffer when `length > (INT16) BufferLen` | BufferLen 0x8000 with a 60-byte frame gives TempLen 32768 (over-read); BufferLen 0x10000 gives 0 (nothing copied) | min(length, BufferLen) | medium (callers' buffers may always be smaller than 0x8000); not executed | E1000Spec.CopyLenAsWritten (lemma E1000Spec.CopyLenAsWrittenCounterexamples) | E1000Spec.CopyLen |

`GigAdapter.Transmit` and `GigAdapter.Receive` use the corrected definitions.

## Left out

- Memory-mapped register access and cache maintenance are not modelled. A register
  is a field holding the last value written. What the hardware does on its own
  arrives as a parameter: it sets DD, moves TDH and fills receive buffers.
- MapMem / UnMapMem are the identity: the address the protocol gives is the address
  in the descriptor.
- The bounded DD wait after the TDT write, and the RXDCTL/TXDCTL enable polls, are
  not modelled. The wait's outcome is the boolean `ddSet` of `GigAdapter.Transmit`.
- GigAdapter.Transmit: the fragmented-frame ensures is stated only when the
  fragments fit in the ring (FragCnt <= N).
  - The source checks ownership of the first slot only. A frame with more fragments
    than free slots overwrites owned slots. The ownership-window ensures therefore
    assumes the frame fits in the free part of the window.
  - The DD wait polls the descriptor after the last fragment. That wait is outside
    the model.
- Not modelled in SetFilter:
  - `e1000_update_mc_addr_list`, which is shared code;
  - the staging copy into `McAddrList`;
  - the `cpbsize / PXE_MAC_LENGTH` count and its truncation to MAX_MCAST_ADDRESS_CNT;
  - the lock (`e1000_BlockIt`).
  The stored list is the list given.
- GigAdapter.Receive requires that the receive buffer holds at least the
  descriptor's length and an Ethernet header, and that the caller's buffer has
  BufferLen bytes. The source trusts the hardware and the protocol on both counts.
- The protocol field of the receive data block is the type field read as a
  little-endian UINT16, as the source reads it. Byte-swapping happens above this
  driver.
- ReceiveEnable's call to `e1000_rx_fifo_flush_82575` (82575 only) is shared code,
  and the stalls in ReceiveEnable and ReceiveDisable are timing. Neither is modelled.
- e1000.h, e1000_defines.h and the PXE UNDI headers are not part of this model.
  The ring size is the array length, and the register bit values are those of the
  Intel e1000 register layout.
- `e1000_FirstTimeInit`, `e1000_Inititialize`, `e1000_Reset`, `e1000_Shutdown`,
  the PHY and link code, and PCI configuration are hardware bring-up. They are left
  out.
- GigAdapter.constructor: TxRxConfigure's writes to registers that no field holds
  are not modelled. These are RDBA, RDLEN, TDBA, TDLEN, SRRCTL, PSRCTL, MRQC, the
  82580's TXDCTL queue enable and TCTL's EN and PSP. The opening ReceiveDisable is
  taken to find receives stopped.
- Statistics: the hardware's read-to-clear counters are the parameter `hwCounts`.
- DPAA2:
  - Management Complex (`Dpaa2Mc*`) and PHY (`Dpaa2Phy*`) calls are results passed
    in, and so are AllocateZeroPool's success and the `StartedInMc`/`CreatedInMc`
    flags of that library.
  - The frame data itself is not modelled.
  - Locks, protocol installation, events, ExitBootServices, driver entry and
    unload, and reading the SoC unique ID from the variable store or generating it
    are firmware services.
- DS3231:
  - I2C traffic (the mux channel switch, RtcRead/RtcWrite) is not modelled: the
    writes LibSetTime issues form a list, and the registers LibGetTime reads are
    parameters.
  - The variable store for time zone and daylight is not modelled: stored values
    come in as `Option`s, and persisting them is not modelled.
  - LibGetTimeFields takes each variable lookup to either find a value or report
    NOT_FOUND with the default then stored. Any other lookup error, or a failed
    SetVariable, makes the source leave TimeZone or Daylight unwritten; that path
    is not modelled.
  - The oscillator-stop check, which clears the flag and sets DEVICE_ERROR, is not
    modelled, and neither is any status of LibGetTime. The later variable lookup
    overwrites that status.
  - The alarm and wakeup functions, and the runtime virtual-address handling, are
    not part of this model.
