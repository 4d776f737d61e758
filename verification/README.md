# hostapd and CSI tool cores, modelled and proved in Dafny

The repository joins an Atheros CSI toolkit to hostapd 2.5. This project models the parts of it that carry state or
arithmetic worth a proof and proves what they promise, for every input, run or reachable state.

| files | subject |
|---|---|
| `Options`, `Bits`, `MacAddress` | optional values, C's bit operators on natural numbers, octet strings as numbers, memcmp order, counter increment |
| `Reltime`, `ApSpec`, `ApTable`, `ApRuns`, `ApHeapRuns`, `ApBeacons` | relative times; the table of neighbouring APs: its abstract steps, the heap structure that refines them, whole runs of both, and what they say of the beacons heard |
| `BssidSpec`, `Bssid` | BSSID mask, validation and the allocator of automatic addresses |
| `CsiStream`, `CsiFun`, `ReadCsi`, `CsiRecord` | the ten-bit sample stream, the two decoders, the packer and the record layout |
| `DfsSpec`, `Dfs` | channel selection, re-selection and radar, CAC and NOP events |
| `GasSpec`, `Gas` | GAS comeback dialogs (section 10.24.3 of IEEE Std 802.11-2012) |
| `MacList`, `RadiusAcl` | accept and deny lists, the RADIUS ACL cache and its pending queries |
| `Country` | the Country element (section 8.4.2.10 of IEEE Std 802.11-2012) |
| `Sqn`, `GsmTriplets` | AKA sequence numbers (3GPP TS 33.102, Annex C.3.2) and the GSM triplet cursor |
| `Accounting` | octet and gigaword counters (sections 5.1 and 5.2 of RFC 2869), session identifiers |

`dafny verify dfyconfig.toml` checks the whole project.

Where the code changes things in place the model does too: the AP table is a class over linked nodes with ghost fields
for the list, the chains and the entries; buffers are arrays; the other tables are sequences held in class fields. Each
such method is proved against a function on values, and the results over runs are lemmas about those functions. Time is
an integer that never falls, in microseconds where an expiry is tested.

## Where the code does not keep a property

- The BSSID validator counts only as many addresses as there are BSSs. When the first BSS is configured with an address
  other than the radio's, that address is never used yet blocks one of the block's addresses, and an automatic BSSID can
  land outside the block. `BssidSpec.AllInBlock` has the exact condition, `Bssid.SpareLeavesBlock` an instance. It takes a
  driver that keeps its own address when it is given the first BSS's BSSID (hostapd/main.c:186); nl80211 sets the
  interface address to it, so that there the two are equal.
- `hostapd_handle_dfs` has no bound of its own on re-selections. Which draws keep it running is `DfsSpec.LoopExact`; when
  one re-selection always suffices is `DfsSpec.SettlesInOne`, when none ever does `DfsSpec.NeverSettles`, and
  `Dfs.StaleMarkLoops` is a table for which it re-selects the same channel for ever. `DfsSpec.RunKeepsTable` shows that no
  event produces such a table.
- The Country element's length octet is right exactly up to 83 triplets (`Country.ElementShape`; 84 in
  `Country.LengthOctetWraps`), and the triplets stand for the channels exactly when first numbers and counts are octets
  (`Country.CutFaithful`; channel 257 in `Country.WideNumberMisread`).
- SQN values stop increasing exactly when SEQ is exhausted (`Sqn.StrictlyIncreasing`, `Sqn.NextExceeds`;
  `Sqn.ExhaustedReturnsToZero`).
- The GSM cursor is shared by all IMSIs. Calls for one IMSI in a row are fair (`GsmTriplets.EachExactlyOnce`); calls with
  others in between are fair exactly for an IMSI with at most one triplet or all of them (`GsmTriplets.FairIffAlone`;
  `GsmTriplets.InterleavingStarves`).
- A wrap of a 64-bit byte counter is taken for one of 32 bits. `Accounting.Reported64` says exactly when the report is
  right all the same; `Accounting.Wrapped64` is the first wrap.
- A 32-bit byte counter is reported right exactly when fewer than 2^32 bytes pass between any two reads
  (`Accounting.Exact32`; `Accounting.FastTraffic32`).
- RADIUS replies reach the ACL by their 8-bit identifier, and other modules draw identifiers from the same client. Two ACL
  queries under one identifier do no harm; a request of another module under the identifier of a query still listed does:
  its verdict is cached for that query's station. `RadiusAcl.VerdictBelongs` says exactly when the verdict goes to the
  station asked about; `RadiusAcl.ReusedByOther` is the failing case.
- The fragment number and the "more" flag of a GAS comeback response share an octet, and the number is not kept below 128.
  `GasSpec.FlagsReadRight` says exactly when a reader gets every flag right; `GasSpec.LongResponseMisread` is a
  response whose end is not seen.

## Model

| member | source | states |
|---|---|---|
| `ApRuns.RunInv` | hostapd-2.5/src/ap/ap_list.c:169-300 | over every run of beacons and timer calls with a non-decreasing clock: addresses distinct, list newest first, size within ap_table_max_size, any legacy entry implies olbc, any legacy non-HT entry implies olbc_ht, empty table implies both flags clear |
| `ApRuns.InvBeacon` | hostapd-2.5/src/ap/ap_list.c:169-248 | one beacon keeps that invariant |
| `ApRuns.InvTick` | hostapd-2.5/src/ap/ap_list.c:251-300 | one timer call keeps that invariant |
| `ApRuns.TailExpiryIsFullScan` | hostapd-2.5/src/ap/ap_list.c:262-269 | on a newest-first list, stopping at the first unexpired tail entry removes exactly what a scan of every entry would call expired |
| `ApRuns.TimerExact` | hostapd-2.5/src/ap/ap_list.c:251-300 | after any run, a timer call leaves exactly the unexpired entries; olbc then holds exactly when a remaining entry is legacy; olbc_ht holds exactly when it held and a non-HT entry remains |
| `ApBeacons.OlbcByHistory` | hostapd-2.5/src/ap/ap_list.c:271-296 | after a timer call olbc holds if and only if the last beacon of some AP still in the table shows a legacy BSS on our channel, read off its octets; olbc_ht only while the last beacon of some AP in the table lacks HT capabilities |
| `ApBeacons.FlagsRaised` | hostapd-2.5/src/ap/ap_list.c:222-243 | a beacon raises olbc exactly when its octets show a legacy BSS on our channel, olbc_ht exactly when it lacks HT capabilities on one of our channels or an unknown one |
| `ApBeacons.EntryByHistory` | hostapd-2.5/src/ap/ap_list.c:192-213 | after any run every entry shows the last beacon of its sender: ERP octet, both rate elements cut to 32 octets, HT, and the channel last told while it was in the table |
| `ApBeacons.RefreshShows` | hostapd-2.5/src/ap/ap_list.c:192-213 | the copying of the elements, with the channel taken from DS Parameter Set before HT Operation before the receiver |
| `ApBeacons.ShownLegacy` | hostapd-2.5/src/ap/ap_list.c:31-50 | the tests on an entry are the tests on the beacon's octets |
| `ApSpec.LegacyMeans` | hostapd-2.5/src/ap/ap_list.c:31-50 | legacy in plain numbers: 802.11g, the same channel, and an odd ERP octet or no rate of 12, 18 or above 22 in units of 500 kb/s |
| `Reltime.ElapsedByParts` | hostapd-2.5/src/utils/os.h:77-108 | expiry compares seconds and microseconds of the age; that is comparing microseconds |
| `ApRuns.TableIsRecencyPrefix` | hostapd-2.5/src/ap/ap_list.c:145-220 | after any run the list is a prefix of all addresses ever heard, most recent first, and each last_beacon is the time that address was last heard; so capacity eviction hits the least recently heard |
| `ApRuns.TableExact` | hostapd-2.5/src/ap/ap_list.c:145-269 | after any run an address is in the table if and only if it is among the first ap_table_max_size of the recency list and no timer call since found it expired |
| `ApRuns.RecencyByHistory` | hostapd-2.5/src/ap/ap_list.c:214-220 | the recency list names each address once, and before an address exactly the others heard since it |
| `ApRuns.TableByHistory` | hostapd-2.5/src/ap/ap_list.c:145-269 | so an address is in the table if and only if it was heard, fewer than ap_table_max_size other addresses were heard since, and no timer call since found it expired |
| `ApRuns.ExactBeacon` | hostapd-2.5/src/ap/ap_list.c:145-220 | a beacon keeps that exact characterisation, for the sender and for every other address |
| `ApRuns.ExactTick` | hostapd-2.5/src/ap/ap_list.c:257-269 | a timer call keeps it |
| `ApHeapRuns.RunOnHeap` | hostapd-2.5/src/ap/ap_list.c:169-300 | any run of events on the linked structure itself: it stays valid, shows what the abstract run leaves and keeps the run invariant |
| `ApHeapRuns.ApplyEvent` | hostapd-2.5/src/ap/ap_list.c:169-300 | one event on the structure refines one step |
| `ApHeapRuns.LookUpAfterRun` | hostapd-2.5/src/ap/ap_list.c:53-61 | after any run ap_get_ap finds an entry if and only if the address was heard, fewer than ap_table_max_size others were heard since and no timer call since found it expired; the entry carries the time it was last heard |
| `ApTable.Iface.Get` | hostapd-2.5/src/ap/ap_list.c:53-61 | walking one hash chain finds an entry exactly when the address is on the list |
| `ApTable.Iface.ListAdd` | hostapd-2.5/src/ap/ap_list.c:64-73 | head insertion keeps next/prev mutually inverse, head->prev the tail, tail->next NULL |
| `ApTable.Iface.ListDel` | hostapd-2.5/src/ap/ap_list.c:76-87 | unlinking any node keeps the same |
| `ApTable.Iface.HashAdd` | hostapd-2.5/src/ap/ap_list.c:90-94 | all 256 chains then hold the enlarged node set, each node once, on the chain of its hash |
| `ApTable.Iface.Predecessor` | hostapd-2.5/src/ap/ap_list.c:108-110 | the walk stops at the entry just before the one to unlink |
| `ApTable.Iface.HashDel` | hostapd-2.5/src/ap/ap_list.c:97-116 | all 256 chains then hold exactly the remaining nodes |
| `ApTable.Iface.FreeAp` | hostapd-2.5/src/ap/ap_list.c:119-126 | list, chains and num_ap lose exactly this entry and still agree |
| `ApTable.Iface.FreeAll` | hostapd-2.5/src/ap/ap_list.c:129-142 | frees every entry and leaves a valid empty table |
| `ApTable.Iface.InsertAp` | hostapd-2.5/src/ap/ap_list.c:149-157 | an entry that is zero but for its address is put at the head of list and chain; list, chains and counter still agree |
| `ApTable.Iface.AddAp` | hostapd-2.5/src/ap/ap_list.c:145-166 | over capacity exactly the former tail goes, unless it is the new entry |
| `ApTable.Iface.LookupAgrees` | hostapd-2.5/src/ap/ap_list.c:181-190 | what the hash finds is what a scan of the list finds |
| `ApTable.ApInfo.Fill` | hostapd-2.5/src/ap/ap_list.c:192-213 | the elements of the frame that end up in the entry, with the channel fallbacks |
| `ApTable.Iface.FillEntry` | hostapd-2.5/src/ap/ap_list.c:192-213 | only the k-th entry changes, the structure stays valid |
| `ApTable.Iface.MoveToFront` | hostapd-2.5/src/ap/ap_list.c:215-220 | unlink and re-add reorders the entries and keeps the structure |
| `ApTable.Iface.BeaconOlbc` | hostapd-2.5/src/ap/ap_list.c:31-50 | true if and only if the mode is 802.11g, the channels are equal, and the ERP octet is odd or no rate octet modulo 128 is 12, 18 or above 22 |
| `ApTable.Iface.RaiseFlags` | hostapd-2.5/src/ap/ap_list.c:222-247 | olbc goes up exactly for a legacy entry, olbc_ht exactly for one without HT on channel 0, ours or our secondary; the result says whether a flag changed |
| `ApTable.Iface.FindOrAdd` | hostapd-2.5/src/ap/ap_list.c:178-190 | the sender has an entry afterwards; it is new exactly when there was none |
| `ApTable.Iface.Refreshed` | hostapd-2.5/src/ap/ap_list.c:178-220 | the sender's entry, up to date, is at the head and the others keep their order |
| `ApTable.Iface.ProcessBeacon` | hostapd-2.5/src/ap/ap_list.c:169-248 | the heap structure refines the beacon step of the abstract table |
| `ApTable.Iface.Tail` | hostapd-2.5/src/ap/ap_list.c:263 | head->prev is the last entry |
| `ApTable.Iface.ScanFlags` | hostapd-2.5/src/ap/ap_list.c:271-282 | the early-exit rescan answers for the whole list |
| `ApTable.Iface.ExpireTail` | hostapd-2.5/src/ap/ap_list.c:262-269 | the heap loop refines dropping expired entries from the tail |
| `ApTable.Iface.Timer` | hostapd-2.5/src/ap/ap_list.c:251-300 | the heap structure refines the timer step, with the early return on an empty list |
| `BssidSpec.DistinctAddresses` | hostapd-2.5/src/ap/hostapd.c:907-925 | after a successful set-up all BSSIDs are pairwise distinct |
| `BssidSpec.AutoOffset` | hostapd-2.5/src/ap/hostapd.c:908-912 | the n-th automatic BSS gets the n-th address after the radio's that no BSS is configured with |
| `BssidSpec.TakenInBlock` | hostapd-2.5/src/ap/hostapd.c:522-534 | the configured addresses met inside the block are exactly the configured ones other than the radio's |
| `BssidSpec.FreeInBlock` | hostapd-2.5/src/ap/hostapd.c:516-558 | how many free addresses the validated block has, exactly |
| `BssidSpec.AutoInBlock` | hostapd-2.5/src/ap/hostapd.c:908-912 | an automatic BSSID is in the block if and only if the block has enough free addresses for it |
| `BssidSpec.AllInBlock` | hostapd-2.5/src/ap/hostapd.c:504-588 | all BSSIDs lie in the aligned 2^bits block at the radio address if and only if the first BSS is not configured with an unused address or the block has room to spare |
| `Bssid.SpareLeavesBlock` | hostapd-2.5/src/ap/hostapd.c:504-588 | a concrete validated configuration whose second BSSID falls outside the block |
| `Bssid.MacInConf` | hostapd-2.5/src/ap/hostapd.c:591-602 | true exactly for a configured address |
| `Bssid.CollectMask` | hostapd-2.5/src/ap/hostapd.c:522-534 | the mask has a bit exactly where a configured BSSID differs from the radio address; tells whether an automatic address is needed |
| `Bssid.OrOctets` | hostapd-2.5/src/ap/hostapd.c:529-533 | folds one BSSID into the mask in place |
| `Bssid.HighestBit` | hostapd-2.5/src/ap/hostapd.c:539-549 | the bit length of the 48-bit mask |
| `Bssid.CountBits` | hostapd-2.5/src/ap/hostapd.c:516-518 | bits needed to number the BSSs |
| `Bssid.BuildMask` | hostapd-2.5/src/ap/hostapd.c:560-566 | all ones but the low bits, octet by octet |
| `Bssid.StartsBlock` | hostapd-2.5/src/ap/hostapd.c:575-585 | the octet-wise test that the radio address has no bit outside the mask |
| `Bssid.ValidateBssidConfiguration` | hostapd-2.5/src/ap/hostapd.c:504-588 | accepts at once for a driver of type none; otherwise computes the least block size that covers the BSS count and every configured BSSID, and accepts exactly when it needs at most 40 bits and the radio address is a multiple of it |
| `Bssid.AllocateNext` | hostapd-2.5/src/ap/hostapd.c:909-912 | the do-while loop terminates at the first later address that no BSS is configured with |
| `Bssid.SetupBssAddresses` | hostapd-2.5/src/ap/hostapd.c:1622-1638 | the BSS loop leaves the addresses that the abstract assignment describes, and fails exactly when some BSS does or is configured with the radio address |
| `Bssid.CheckDuplicates` | hostapd-2.5/src/ap/ap_config.c:759-773 | accepts exactly when no configured BSSID occurs twice |
| `Bssid.StartInterface` | hostapd-2.5/src/ap/hostapd.c:1622-1638 | check, validation and set-up together: distinct addresses, configured ones respected, and the exact condition for the block |
| `MacAddress.IncNum` | hostapd-2.5/src/ap/hostapd.c:911 | the incremented octets write the next number modulo 2^(8n) |
| `MacAddress.IncByteArray` | hostapd-2.5/src/ap/hostapd.c:911 | in-place increment of the big-endian counter |
| `MacAddress.MemCmpIsOrder` | hostapd-2.5/hostapd/config_file.c:112-117 | memcmp orders addresses as 48-bit numbers |
| `CsiFun.FillCsiMatrix` | recvCSIToFile/csi_fun.c:48-111 | cell [r][c][k] holds the sign-extended ten-bit fields 2((k nc + c) nr + r) and the next of the little-endian stream, other cells are untouched, and exactly max(1, ceil(20 nr nc tones / 16)) words are read |
| `CsiFun.TakeSample` | recvCSIToFile/csi_fun.c:73-89 | one refill-and-take step yields the next ten-bit field and keeps current_data = the unread bits < 2^bits_left, without 32-bit overflow |
| `CsiFun.TakeCell` | recvCSIToFile/csi_fun.c:73-106 | imaginary then real part |
| `CsiFun.FirstWord` | recvCSIToFile/csi_fun.c:55-65 | the first word primes the decoder |
| `CsiStream.ConvertCode` | recvCSIToFile/csi_fun.c:38-46 | bit_convert inverts the two's complement code |
| `CsiStream.CodeConvert` | matlab/read_csi.c:28-35 | and the code inverts the conversion |
| `CsiRecord.PackedSample` | recvCSIToFile/csi_fun.c:67-110 | every sample comes back from the obvious packer's output, whatever follows it |
| `CsiRecord.StreamOfOctets` | recvCSIToFile/csi_fun.c:62-65 | packing bits into octets and reading them as a stream is the identity |
| `CsiRecord.RecordCsiPayload` | recvCSIToFile/csi_fun.c:178-199 | copies exactly the payload octets after the CSI and decodes the CSI from octet 25 on |
| `CsiRecord.EndianMirror` | recvCSIToFile/csi_fun.c:137-162 | the big-endian branch reads the mirror image of what the little-endian one reads |
| `CsiRecord.ParseRecord` | recvCSIToFile/csi_fun.c:137-199 | parsing what the obvious encoder wrote gives back lengths, payload and every sample at its place, whatever follows the record |
| `ReadCsi.NextSymbol` | matlab/read_csi.c:94-108 | one symbol of the MEX decoder is the same field of the stream |
| `ReadCsi.MexDecode` | matlab/read_csi.c:82-129 | output position p holds fields 2p and 2p+1 |
| `ReadCsi.ColumnMajorIsFlat` | matlab/read_csi.c:91-129 | column-major position r + nr (c + nc k) is the position reached by incrementing the output pointers |
| `ReadCsi.DecodeBoth` | matlab/read_csi.c:82-129 | both decoders give the same matrix on every input |
| `DfsSpec.CandidatesComplete` | hostapd-2.5/src/ap/dfs.c:182-219 | the candidate list holds exactly the channels that pass all three tests, each once, in table order |
| `Dfs.FindChannel` | hostapd-2.5/src/ap/dfs.c:182-219 | without a target the loop returns their number; with one it returns the idx-th |
| `Dfs.GetValidChannel` | hostapd-2.5/src/ap/dfs.c:422-469 | rand mod count always picks a candidate, NULL exactly when there is none or the mode is not 11a; a channel picked is selectable by the entries of its range, and with NULL none is |
| `DfsSpec.CandidateIsSelectable` | hostapd-2.5/src/ap/dfs.c:54-219 | a channel is a candidate if and only if the entries from it on lie at 20 MHz steps, none disabled, unavailable or, with skip_radar, a radar channel not available, and its number is one that the width allows and the channel list holds |
| `DfsSpec.UsedChans` | hostapd-2.5/src/ap/dfs.c:22-51 | 160 MHz is eight channels, 80 and 80+80 MHz four, HT40 two, all else one |
| `DfsSpec.RetuneMeans` | hostapd-2.5/src/ap/dfs.c:222-260 | after re-selection the control channel is the chosen one and the centre index the middle of the range that begins there |
| `DfsSpec.StartMeans` | hostapd-2.5/src/ap/dfs.c:264-303 | the configured centre index is the middle of the range looked for, and for HT40- the control channel its top |
| `DfsSpec.StartFound` | hostapd-2.5/src/ap/dfs.c:305-346 | the first channel of that number, and for 80+80 MHz only if the second segment's number exists |
| `DfsSpec.FrequencyIsIndex` | hostapd-2.5/src/ap/dfs.c:125-162 | in a table with gaps of at least 20 MHz, looking sub-channels up by frequency finds consecutive indices |
| `DfsSpec.RangeByIndex` | hostapd-2.5/src/ap/dfs.c:139-162 | so an available range by frequency is an available index range |
| `DfsSpec.RetunedStart` | hostapd-2.5/src/ap/dfs.c:222-347 | after re-selection the first sub-channel of the configuration is the channel chosen, or none for 80+80 MHz |
| `DfsSpec.ReselectAgain` | hostapd-2.5/src/ap/dfs.c:664-716 | the pass after a re-selection asks for another one if and only if the chosen range is stale: it needs a CAC and holds a non-radar channel marked unavailable |
| `DfsSpec.ReselectSettles` | hostapd-2.5/src/ap/dfs.c:664-716 | hence never, when unavailable implies radar |
| `DfsSpec.CandidatesKept` | hostapd-2.5/src/ap/dfs.c:710-714 | re-selection does not change the candidates |
| `DfsSpec.LoopExact` | hostapd-2.5/src/ap/dfs.c:664-716 | after any draws the loop is still running if and only if it began to re-select, there is something to pick and every draw picked a stale candidate; it never reads outside the table |
| `DfsSpec.SettlesInOne` | hostapd-2.5/src/ap/dfs.c:664-716 | one re-selection suffices for every draw if and only if none is due or no candidate is stale |
| `DfsSpec.NeverSettles` | hostapd-2.5/src/ap/dfs.c:664-716 | no sequence of draws ends the loop if and only if it begins to re-select and all candidates are stale |
| `DfsSpec.TableOkSettles` | hostapd-2.5/src/ap/dfs.c:664-716 | with marks on radar channels only, at most one draw is used |
| `Dfs.StaleMarkLoops` | hostapd-2.5/src/ap/dfs.c:664-716 | a table with such a stale mark for which every sequence of draws re-selects the same channel for ever |
| `DfsSpec.MarkEffect` | hostapd-2.5/src/ap/dfs.c:498-550 | marking gives the state to exactly the radar channels in the range |
| `DfsSpec.StepEffect` | hostapd-2.5/src/ap/dfs.c:947-996 | each event gives exactly the radar channels of its band unavailable (radar, with 802.11h), available (CAC succeeded) or usable (NOP over), and nothing when DFS is offloaded or the mode is not 11a |
| `DfsSpec.BandIsRange` | hostapd-2.5/src/ap/dfs.c:516-547 | the sub-channels counted up from the first frequency are those inside 40, 80 or 160 MHz around the centre on the 20 MHz grid, or the one reported |
| `DfsSpec.RunKeepsTable` | hostapd-2.5/src/ap/dfs.c:472-550 | every run of events keeps the table properties that re-selection needs |
| `DfsSpec.StaysMarked` | hostapd-2.5/src/ap/dfs.c:947-996 | a marked radar channel stays unavailable until an event covers it with another state |
| `DfsSpec.RadarSafety` | hostapd-2.5/src/ap/dfs.c:422-469 | until then no channel that can be selected occupies its frequency |
| `DfsSpec.NotUnavailable` | hostapd-2.5/src/ap/dfs.c:54-74 | no sub-channel of a candidate is disabled or an unavailable radar channel, and with skip_radar each is non-radar or available |
| `Dfs.Iface.SetDfsStateFreq` | hostapd-2.5/src/ap/dfs.c:472-495 | marks the first radar channel of that frequency |
| `Dfs.Iface.SetDfsState` | hostapd-2.5/src/ap/dfs.c:498-550 | in 11a mode gives the state to exactly the radar channels of the event's band |
| `Dfs.Iface.CompleteCac` | hostapd-2.5/src/ap/dfs.c:749-775 | refines the CAC event, with the offload cases |
| `Dfs.Iface.NopFinished` | hostapd-2.5/src/ap/dfs.c:980-996 | refines the NOP event |
| `Dfs.Iface.HandleDfs` | hostapd-2.5/src/ap/dfs.c:646-746 | for every table and configuration: the result and the configuration left are those of the loop; 1 only if every sub-channel of the first segment is non-radar or available, 0 only if a CAC is needed and nothing is unavailable; a CAC is noted as running exactly when the driver started one; with marks on radar channels only it returns after at most one re-selection |
| `Dfs.Iface.StartDfsCac` | hostapd-2.5/src/ap/ap_drv_ops.c:698-733 | refused exactly when the driver knows the call and 802.11h is off or it does not accept; the flag goes up only when the CAC was started |
| `Dfs.Iface.Settle` | hostapd-2.5/src/ap/dfs.c:664-716 | the do-while loop ends as the abstract loop does, with the configuration written back |
| `Dfs.Iface.PassMeaning` | hostapd-2.5/src/ap/dfs.c:664-699 | when each verdict is given, if and only if, in terms of the entries of the range |
| `Dfs.Iface.EightyPlusEightyFails` | hostapd-2.5/src/ap/dfs.c:251-254 | 80+80 MHz that has to be re-selected ends in -1 |
| `Dfs.Iface.Apply` | hostapd-2.5/src/ap/dfs.c:710-714 | after the write-back the number of sub-channels is the same and the configured range starts at the chosen channel, or at none for 80+80 MHz |
| `Dfs.Iface.RadarDetected` | hostapd-2.5/src/ap/dfs.c:947-977 | marks the band; with channel numbers that follow the frequencies the AP moves or is taken down if and only if one of its radar sub-channels was struck and no switch is in progress; where it moves to holds no struck radar channel, and at once only to channels that are non-radar or available |
| `Dfs.Iface.StartChannelSwitch` | hostapd-2.5/src/ap/dfs.c:778-944 | does nothing during a switch; otherwise goes to a candidate, one that needs a CAC only when no other is left or a CAC was running, and is taken down only when there is none or the switch parameters cannot be worked out |
| `Dfs.Iface.ChannelsOverlapped` | hostapd-2.5/src/ap/dfs.c:553-615 | positive exactly when a radar sub-channel in use has one of the event's channel numbers |
| `DfsSpec.OverlapIsStrike` | hostapd-2.5/src/ap/dfs.c:598-610 | that is, exactly when its frequency is in the event's range |
| `Dfs.ClearAfterMark` | hostapd-2.5/src/ap/dfs.c:964-974 | a candidate found after marking occupies no radar channel of the event and no unavailable one |
| `DfsSpec.MarkKeepsTable` | hostapd-2.5/src/ap/dfs.c:498-550 | marking changes DFS states only, whatever the table |
| `GasSpec.CreateTakesFreeSlot` | hostapd-2.5/src/ap/gas_serv.c:60-84 | creation takes the first free slot from the remembered one round, which is zeroed, touches no other, remembers the one after it, and fails exactly when all eight are valid |
| `GasSpec.NoneIffFull` | hostapd-2.5/src/ap/gas_serv.c:67-78 | the round-robin search visits every slot |
| `GasSpec.StepKeepsOk` | hostapd-2.5/src/ap/gas_serv.c:997-1224 | every request keeps the slot array well formed: free slots zeroed, positions inside the response, the array allocated only while a dialog is open |
| `GasSpec.OtherStep` | hostapd-2.5/src/ap/gas_serv.c:1151-1224 | requests with other tokens do not touch a dialog |
| `GasSpec.OpenComeback` | hostapd-2.5/src/ap/gas_serv.c:1184-1224 | one comeback: next fragment, or the last one with the slot zeroed |
| `GasSpec.OpenRun` | hostapd-2.5/src/ap/gas_serv.c:1151-1224 | over any interleaving and any fragment limits, the replies for a unique token are the consecutive fragments of its response, then refusals |
| `GasSpec.ClosedRun` | hostapd-2.5/src/ap/gas_serv.c:1168-1182 | without a dialog every comeback is answered with no outstanding request, group addresses not at all |
| `GasSpec.Fragment` | hostapd-2.5/src/ap/gas_serv.c:1184-1202 | a fragment is never longer than the limit of its request |
| `GasSpec.FragmentAt` | hostapd-2.5/src/ap/gas_serv.c:1184-1212 | the k-th reply carries fragment k: internal number k modulo 256, at most as long as its limit, with more passed exactly while something remains |
| `GasSpec.FragmentsReassemble` | hostapd-2.5/src/ap/gas_serv.c:1184-1224 | the fragments concatenated are the response, complete exactly once enough has been asked for |
| `GasSpec.OctetRead` | hostapd-2.5/src/common/gas.c:47-66 | number and flag share an octet: a reader gets the number modulo 128, and the flag as set from number 128 on |
| `GasSpec.FlagsReadRight` | hostapd-2.5/src/common/gas.c:47-66 | over an n-fragment response a reader gets fragment numbers k modulo 128, and every flag right if and only if (n - 1) modulo 256 is below 128 |
| `GasSpec.LongResponseMisread` | hostapd-2.5/src/common/gas.c:47-66 | 129 octets sent one by one: the last fragment is read as number 0 with more to come |
| `GasSpec.ServedInSlotOrder` | hostapd-2.5/src/ap/gas_serv.c:1151-1224 | with any number of dialogs under a token, over any run that opens no further one: comebacks are served from the lowest slot first, each dialog to its end, then refused |
| `GasSpec.ComebackServesFront` | hostapd-2.5/src/ap/gas_serv.c:1168-1224 | one comeback is served by the first dialog in slot order and touches no other |
| `GasSpec.OtherKeepsQueue` | hostapd-2.5/src/ap/gas_serv.c:1151-1224 | requests under other tokens leave the dialogs of a token and their order alone |
| `GasSpec.NewDialogPlace` | hostapd-2.5/src/ap/gas_serv.c:67-77 | a dialog opened under a token in use takes the place of its slot among the others |
| `GasSpec.LowerSlotInterrupts` | hostapd-2.5/src/ap/gas_serv.c:67-77 | in a lower slot it is sent in full before the one already open goes on |
| `GasSpec.DialogDelivers` | hostapd-2.5/src/ap/gas_serv.c:997-1025 | from the initial request on |
| `GasSpec.InitialAnswer` | hostapd-2.5/src/ap/gas_serv.c:997-1031 | a response that fits is sent whole and changes nothing, with all eight slots in use the request fails, otherwise comeback is announced with the configured delay or 1 |
| `GasSpec.DeliveryLaw` | hostapd-2.5/src/ap/gas_serv.c:997-1224 | for every initial request under an unused token that is not failed: the initial body and the comeback bodies put together are the response, up to what has been asked for |
| `Gas.GasStation.Create` | hostapd-2.5/src/ap/gas_serv.c:60-84 | the slot loop refines creation |
| `Gas.GasStation.Find` | hostapd-2.5/src/ap/gas_serv.c:87-109 | the first valid slot with the token |
| `Gas.GasStation.FreeDialogs` | hostapd-2.5/src/ap/gas_serv.c:119-136 | drops the array exactly when no slot is valid |
| `Gas.GasStation.LocalProcessing` | hostapd-2.5/src/ap/gas_serv.c:997-1031 | refines the initial request; a response that fits comes back whole |
| `Gas.GasStation.RxComebackReq` | hostapd-2.5/src/ap/gas_serv.c:1151-1224 | refines the comeback request |
| `RadiusAcl.RunOk` | hostapd-2.5/src/ap/ieee802_11_auth.c:251-598 | in every reachable state: at most one pending query per address, both lists newest first, no cached PENDING, and where the ACL waits for a reply the first query listed under its identifier is for the address asked about |
| `RadiusAcl.StepKeepsOk` | hostapd-2.5/src/ap/ieee802_11_auth.c:251-598 | each operation, of the ACL or of another user of the client, keeps that |
| `RadiusAcl.FirstMatchDecides` | hostapd-2.5/src/ap/ieee802_11_auth.c:111-117 | returning -1 at the first expired match is the same as having no fresh entry at all |
| `RadiusAcl.CacheIsLog` | hostapd-2.5/src/ap/ieee802_11_auth.c:340-397 | after any run a look-up finds what it would find in a log of all verdicts ever received: expiry never loses a fresh one |
| `RadiusAcl.KeepCachedFresh` | hostapd-2.5/src/ap/ieee802_11_auth.c:340-367 | one expiry scan changes no later look-up |
| `RadiusAcl.DefiniteAfterReply` | hostapd-2.5/src/ap/ieee802_11_auth.c:509-598 | after a verdict is cached the address gets that verdict, not PENDING, for 30 seconds, and has no query left |
| `RadiusAcl.CachedVerdict` | hostapd-2.5/src/ap/ieee802_11_auth.c:517-574 | accepting if and only if the reply is an Access-Accept with the PSK and the known VLAN where these are required; with a session timeout exactly when the reply has one; never PENDING |
| `RadiusAcl.CacheEntry` | hostapd-2.5/src/ap/ieee802_11_auth.c:515-574 | what is cached with a verdict: a known VLAN, the session timeout, an accounting interval of a minute or more, keys and identities; nothing with a rejection |
| `RadiusAcl.AclState.CacheGet` | hostapd-2.5/src/ap/ieee802_11_auth.c:100-143 | the newest entry of the address, exactly when it is at most 30 seconds old; with none every entry of it is older |
| `RadiusAcl.AclState.AllowedAddress` | hostapd-2.5/src/ap/ieee802_11_auth.c:232-336 | a listed address is accepted, else a denied one rejected, else accepted or rejected by the policy; under external RADIUS the newest verdict of the last 30 seconds, else pending while a query is listed or can be sent, else rejected; a query is added only when none is listed; VLAN, timeout, accounting interval, keys and identities come from the fresh entry or are blank |
| `RadiusAcl.AclState.ExpireCache` | hostapd-2.5/src/ap/ieee802_11_auth.c:340-367 | keeps exactly the unexpired entries in order |
| `RadiusAcl.AclState.ExpireQueries` | hostapd-2.5/src/ap/ieee802_11_auth.c:370-397 | keeps exactly the unexpired queries in order |
| `RadiusAcl.AclState.ExpireBoth` | hostapd-2.5/src/ap/ieee802_11_auth.c:404-411 | refines the expiry step |
| `RadiusAcl.AclState.RecvRadius` | hostapd-2.5/src/ap/ieee802_11_auth.c:472-599 | takes a reply exactly when a query has its identifier, its authenticator is right and it accepts or rejects; the re-sent frame gets a definite answer and leaves the query list alone, so the right query is unlinked |
| `RadiusAcl.AclState.Receive` | hostapd-2.5/src/radius/radius_client.c:822-868 | a reply nothing waits for is dropped; otherwise it is no longer waited for and the ACL sees it first |
| `RadiusAcl.AclState.SendOther` | hostapd-2.5/src/radius/radius_client.c:910-942 | another module's request drops what was waited for under its identifier |
| `RadiusAcl.FindId` | hostapd-2.5/src/ap/ieee802_11_auth.c:482-491 | the first query with the identifier, none if no query has it |
| `RadiusAcl.VerdictBelongs` | hostapd-2.5/src/ap/ieee802_11_auth.c:482-516 | over every run, however identifiers are shared: a cached verdict goes to the station that the answered request asked about if and only if the last request under the identifier was the ACL's own |
| `RadiusAcl.ReusedByOther` | hostapd-2.5/src/ap/ieee802_11_auth.c:482-516 | another module reuses the identifier of a query still listed, and its Access-Accept is cached for that station |
| `RadiusAcl.WaitsForLast` | hostapd-2.5/src/radius/radius_client.c:910-942 | the client waits for nobody's reply but that of the last to use the identifier |
| `RadiusAcl.FindIdKeep` | hostapd-2.5/src/ap/ieee802_11_auth.c:378-396 | expiry drops the first query of an identifier only together with all older ones of it |
| `RadiusAcl.KeepCachedConcat` | hostapd-2.5/src/ap/ieee802_11_auth.c:348-366 | expiry decides entry by entry, keeping order and number |
| `MacList.AfterExact` | hostapd-2.5/hostapd/config_file.c:139-201 | an entry is listed exactly when some line added it and no later line removed its address |
| `MacList.ListedIffLastAdded` | hostapd-2.5/hostapd/config_file.c:139-201 | an address is listed exactly when the last line that mentions it adds it |
| `MacList.AfterConcat` | hostapd-2.5/hostapd/config_file.c:139-201 | reading files one after the other is reading their concatenation |
| `MacList.Found` | hostapd-2.5/src/ap/ap_config.c:612-635 | binary search finds the address exactly when it is listed; the VLAN id is that of a stored entry for it |
| `MacList.MacAcl.RemoveAll` | hostapd-2.5/hostapd/config_file.c:169-181 | removes exactly the entries of the address |
| `MacList.MacAcl.Sort` | hostapd-2.5/hostapd/config_file.c:206 | sorted by address and a permutation |
| `MacList.MacAcl.ReadMacList` | hostapd-2.5/hostapd/config_file.c:120-209 | fails exactly on an invalid address; otherwise the sorted list holds the entries the lines describe |
| `MacList.ReadAndSearch` | hostapd-2.5/src/ap/ap_config.c:612-635 | files read in any number, then searched: found exactly when the last mention is an addition |
| `Country.GroupsExpand` | hostapd-2.5/src/ap/beacon.c:245-270 | the groups stand for exactly the enabled channels and powers, in table order |
| `Country.GroupsShortest` | hostapd-2.5/src/ap/beacon.c:245-270 | no list of triplets that stands for the same channels is shorter |
| `Country.ElementShape` | hostapd-2.5/src/ap/beacon.c:222-281 | size even and within max_len; nothing is emitted exactly when the pad does not fit; the length octet is right exactly up to 83 triplets |
| `Country.PadIsZero` | hostapd-2.5/src/ap/beacon.c:272-276 | the octet that makes the size even is zero |
| `Country.CutFaithful` | hostapd-2.5/src/ap/beacon.c:204-219 | writing values as octets loses nothing exactly when every first number and count is an octet |
| `Country.OctetsSuffice` | hostapd-2.5/src/ap/beacon.c:204-219 | which channel numbers 1 to 255 always give |
| `Country.DecodeElement` | hostapd-2.5/src/ap/beacon.c:222-281 | a reader gets the country string and the triplets that fitted |
| `Country.CountryRoundTrip` | hostapd-2.5/src/ap/beacon.c:222-281 | reading the element gives back the enabled list, or the expansion of a prefix of the groups when space runs out |
| `Country.BandElement` | hostapd-2.5/src/ap/beacon.c:222-281 | channels 36 to 48 at one power in 802.11a are the element 7, 6, country, 36, 4, power |
| `Country.LengthOctetWraps` | hostapd-2.5/src/ap/beacon.c:272-280 | 84 groups in 258 octets: the length octet is 0 and a reader finds no element |
| `Country.WideNumberMisread` | hostapd-2.5/src/ap/beacon.c:211-216 | channel number 257 is read back as channel 1 |
| `Country.EidCountryAdd` | hostapd-2.5/src/ap/beacon.c:204-219 | writes one triplet if three octets are left, nothing otherwise |
| `Country.Flush` | hostapd-2.5/src/ap/beacon.c:257-270 | completing the open group writes it exactly when it fits |
| `Country.WriteGroups` | hostapd-2.5/src/ap/beacon.c:245-270 | the loop writes the triplets that fit |
| `Country.Finish` | hostapd-2.5/src/ap/beacon.c:272-280 | pads to an even size and sets the length octet |
| `Country.EidCountry` | hostapd-2.5/src/ap/beacon.c:222-281 | the buffer holds the element, or nothing where 802.11d is off, the mode unknown or the buffer too small |
| `Sqn.NextParts` | hostapd-2.5/hostapd/hlr_auc_gw.c:766-785 | one generation raises SEQ by one modulo 2^(48-k) and IND by one modulo 2^k |
| `Sqn.AfterParts` | hostapd-2.5/hostapd/hlr_auc_gw.c:766-785 | n generations raise them by n |
| `Sqn.NextExceeds` | hostapd-2.5/hostapd/hlr_auc_gw.c:766-785 | the next SQN is greater if and only if SEQ is not exhausted |
| `Sqn.StrictlyIncreasing` | hostapd-2.5/hostapd/hlr_auc_gw.c:766-785 | n generations are strictly increasing if and only if SEQ does not run out within them |
| `Sqn.ExhaustedReturnsToZero` | hostapd-2.5/hostapd/hlr_auc_gw.c:766-785 | the last SQN of all is followed by 0, for every IND length |
| `Sqn.IndRepeats` | hostapd-2.5/hostapd/hlr_auc_gw.c:766-785 | two generated numbers share IND exactly when a whole number of cycles lies between |
| `Sqn.StoredNum` | hostapd-2.5/hostapd/hlr_auc_gw.c:783-784 | the stored octets keep the value modulo 2^48 |
| `Sqn.IncSqn` | hostapd-2.5/hostapd/hlr_auc_gw.c:766-785 | the big-endian octets in place become those of the next SQN |
| `Sqn.Subscriber.AkaReqAuth` | hostapd-2.5/hostapd/hlr_auc_gw.c:802-811 | an authentication request generates one SQN unless no random octets are to be had |
| `Sqn.Subscriber.AkaAuts` | hostapd-2.5/hostapd/hlr_auc_gw.c:901-904 | takes over the received SQN exactly when MAC-S is right |
| `Sqn.Subscriber.Resynchronise` | hostapd-2.5/hostapd/hlr_auc_gw.c:901-914 | the next SQN exceeds the received one if and only if its SEQ is not the last |
| `GsmTriplets.PickRank` | hostapd-2.5/hostapd/hlr_auc_gw.c:388-410 | NULL exactly when the IMSI has no triplet; otherwise the next one round the circle |
| `GsmTriplets.CallRank` | hostapd-2.5/hostapd/hlr_auc_gw.c:388-410 | the n-th consecutive call hands out the triplet n places further |
| `GsmTriplets.EachExactlyOnce` | hostapd-2.5/hostapd/hlr_auc_gw.c:388-410 | m consecutive calls for an IMSI with m triplets hand each out exactly once, from every cursor position |
| `GsmTriplets.FairIffAlone` | hostapd-2.5/hostapd/hlr_auc_gw.c:388-410 | from every cursor position, after any calls and under every interleaving with other IMSIs, as many calls as the IMSI has triplets hand each out exactly once, if and only if it has at most one triplet or all of them |
| `GsmTriplets.AloneIsFair` | hostapd-2.5/hostapd/hlr_auc_gw.c:388-410 | fair when all triplets are its own: calls for others leave the cursor alone |
| `GsmTriplets.OneIsFair` | hostapd-2.5/hostapd/hlr_auc_gw.c:388-410 | fair when it has at most one |
| `GsmTriplets.ForeignIsUnfair` | hostapd-2.5/hostapd/hlr_auc_gw.c:388-410 | with two or more and a foreign triplet, some calls from any cursor hand the same one out twice in a row |
| `GsmTriplets.ReachBehind` | hostapd-2.5/hostapd/hlr_auc_gw.c:388-410 | enough calls for the IMSI of an entry put the cursor right behind it, from anywhere |
| `GsmTriplets.InterleavingStarves` | hostapd-2.5/hostapd/hlr_auc_gw.c:388-410 | an instance: two IMSIs taking turns, and one triplet is passed over every time |
| `GsmTriplets.GsmDb.GetGsmTriplet` | hostapd-2.5/hostapd/hlr_auc_gw.c:388-410 | the two loops hand out that triplet and move the cursor behind it |
| `Accounting.WrapSeen` | hostapd-2.5/src/ap/accounting.c:167-170 | comparing two readings counts the wraps between them if and only if fewer than 2^32 bytes passed |
| `Accounting.Polled32` | hostapd-2.5/src/ap/accounting.c:160-172 | over any such history gigawords and reading are the halves of the true total |
| `Accounting.Reported32` | hostapd-2.5/src/ap/accounting.c:290-323 | gigawords * 2^32 + octets is the true total, on either build, modulo the 2^64 the attributes can hold |
| `Accounting.Exact32` | hostapd-2.5/src/ap/accounting.c:290-323 | for a total that never falls and stays below 2^64, the report is the true total if and only if fewer than 2^32 bytes passed between any two reads, on either build |
| `Accounting.WrapsSeenExact` | hostapd-2.5/src/ap/accounting.c:167-170 | reads miss wraps and never invent them, and miss none exactly then |
| `Accounting.FastTraffic32` | hostapd-2.5/src/ap/accounting.c:167-170 | 2^32 bytes before the first read are reported as none |
| `Accounting.Polled64` | hostapd-2.5/src/ap/accounting.c:160-172 | over any history with less than 2^64 bytes between reads, the reading is the total modulo 2^64 and each wrap of 2^64 has added one gigaword |
| `Accounting.Reported64` | hostapd-2.5/src/ap/accounting.c:296-323 | on a 64-bit build the report is the true total modulo 2^64 if and only if the number of wraps is a multiple of 2^32, and the true total itself if and only if that is below 2^64 |
| `Accounting.Misreport64` | hostapd-2.5/src/ap/accounting.c:296-323 | what is reported in every case: the upper half too high by the number of wraps |
| `Accounting.Wrapped64` | hostapd-2.5/src/ap/accounting.c:167-170 | an instance: 2^64 bytes reported as 2^32 |
| `Accounting.Station.Start` | hostapd-2.5/src/ap/accounting.c:224-225 | counters start at zero |
| `Accounting.Station.UpdateStats` | hostapd-2.5/src/ap/accounting.c:160-172 | both directions, unchanged where the driver cannot be read |
| `Accounting.Station.ReportSta` | hostapd-2.5/src/ap/accounting.c:277-324 | the attributes sent, Gigawords left out when zero |
| `Accounting.AssignedIs` | hostapd-2.5/src/ap/accounting.c:386-394 | the n-th identifier in closed form, the high half read after the carry |
| `Accounting.IdsRepeat` | hostapd-2.5/src/ap/accounting.c:386-394 | two assignments agree if and only if a multiple of 2^64 lies between them |
| `Accounting.IdsDistinct` | hostapd-2.5/src/ap/accounting.c:386-394 | so 2^64 consecutive identifiers are distinct |
| `Accounting.Allocator.GetId` | hostapd-2.5/src/ap/accounting.c:386-394 | refines one assignment |

## Left out

- Sockets, ioctls, timers' registration, file reading, logging, drivers and message building: outcomes of such calls are
  parameters (whether a request could be sent, whether a driver accepts a CAC, the random number drawn).
- Cryptography (Milenage, tunnel passwords, RADIUS authenticators): whether a check succeeds is a parameter.
- Allocation failures.
- Build options: CONFIG_IEEE80211N, RADIUS and AP MLME are taken as enabled, the drivers' RADIUS ACL as disabled.
- Configuration changes and channel table reloads during a run, except the GAS fragment limit.
- Parsing of frames, RADIUS attributes, MAC list text and the channel table; the fields they yield are inputs.
- Bssid.ValidateBssidConfiguration: the BSS count is below 2^32, the range of the source's unsigned counter.
- Bssid.SetupBssAddresses: the rest of each BSS's set-up is one outcome per BSS, and the clean-up after a failure is not
  modelled.
- The timestamp of record_status: its shifts exceed the width of int and have no defined value. buf_len, rate, noise and
  RSSI are plain octet copies and are not modelled either. Its big-endian branch is modelled as written, though
  is_big_endian looks at the first octet of a 32-bit 0x1234, which is never 0x12.
- CsiFun.FillCsiMatrix: reads within the buffer and writes within the matrix are preconditions, as the source has no
  check; the source's loop counters are octets, so its dimensions are at most 255.
- The database variant of the CSI receiver, which repeats the decoder.
- Dfs.Iface.HandleDfs: the source indexes the channel table without a check; where it would read outside, the model says
  so and stops. The CAC duration is not modelled. The second segment of 80+80 MHz is not checked by the source.
- Dfs.Iface.CompleteCac: the interface set-up that it resumes, and what that does to the CAC flag when DFS is offloaded, are
  not modelled.
- Dfs.Iface.RadarDetected: the channel number that ieee80211_freq_to_chan gives for the event's first frequency and the
  state of a channel switch are inputs; a known mode and a configured range inside the table are preconditions, as the
  source reads both without a check; the restart of the interface is not modelled.
- Gas.GasStation.Create: look-up and creation of the station entry and its session timeout are not modelled.
- Gas.GasStation.LocalProcessing: building the response is foreign; the response is an input.
- MacList.MacAcl.Sort: qsort is modelled by an insertion sort; only order and content matter, as its result for equal
  addresses is not fixed.
- MacList.MacAcl.ReadMacList: the array is a sequence field; reallocation and pointer arithmetic are not captured.
- RadiusAcl.AclState.RecvRadius: the lists are sequence fields, so pointer-level unlinking is not captured. Re-sending the
  stored frame is the evaluation of its sender's address.
- The RADIUS client's retransmissions: that it may stop waiting for a request is an event, not a timer. Identifiers are
  inputs; the source counts them up modulo 256. That only the answer to a request passes its authenticator is taken from
  the cryptography.
- Sqn.IncSqn: IND lengths up to 30; for 31 and 32, which the command line also admits, the source's int shift is not
  defined.
- Station tracking in beacon.c: a second bounded list like the AP table, without the hash.
- Floating-point channel scoring, the control interface, the main programs and the MATLAB gateway's argument handling.
