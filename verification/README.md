# Model of the TC956X Ethernet driver: filters, clock, channels and schedules

The TC956X driver mostly moves values between structures and registers.  This project models the five
parts of it that hold state or do arithmetic, and proves what each is for.

**Frame filters (the largest part).**  A tc u32 filter is a masked 32-bit match at a byte offset, a
priority and a verdict.  The driver compiles the filters into the table of the Flexible Receive Parser
(FRP): a match becomes one word-aligned row, or a main row and a fragment row with a jump over it; rows
are ordered by priority, a pass-all row closes the table, and the image goes through an indirect register
window.  Proved: running the image gives every frame the verdict of the first matching filter
(`RxpImage.ImageCorrect`); the emission loop ends and emits every filter once, in order
(`RxpConfig.EmitAll`); memory holds the image whenever the parser is on, and words are written only while
reception and parser are off, whatever waits time out (`RxpConfig.Configure`); and over every run of
requests the slots refine a map from handles to rules, which the hardware enforces unless a load failed,
when it passes everything, or all 256 slots are in use, when it decides no frame (`TcRequests.RunRefines`,
`TcDriver.Serve`).

**Shared address and VLAN filters.**  Two arrays of slots with four owners each refine a set of
(address, owner) pairs and a multiset of (VLAN, owner) pairs, and agree with the perfect-filter and hash
registers.

**PTP clock.**  A snapshot of a running clock, and the fixed-point encoding of its period.

**Offload channels.**  Ownership of DMA channels over requests and releases.

**Schedules, flows and coalescing.**  Checking, packing and loading of time-aware schedules
(IEEE 802.1Q-2018, section 8.6.8.4); the cookie table of L3/L4 flows; microseconds and watchdog units.

## How the source is read

- Arrays that the driver updates in place are arrays here, structures with mutable fields are classes,
  and each loop is a method with a loop.  Each such method is proved against a function on sequences, and
  the lemmas about runs are about these functions.
- The repository does not say what the hardware does with an FRP row.  `FrpRow.Run` fixes it: a row hits
  when `(word[frame_offset] ^ match_data) & match_en == 0` on little-endian words; with `nc` clear a hit
  decides by `af` or `rf` and a miss goes to the next row; with `nc` set a hit goes to the next row and a
  miss jumps to `ok_index`.  This fits dwxgmac2_core.c:1898-1904.  A disabled parser passes every frame.
  The bit `im` is carried but never set by the driver (`RxpImage.ImageWritten`), and is not interpreted.
- A 32-bit word of a row is four bytes, since every shift and mask on it is by whole bytes.  A frame is a
  total function from positions to bytes: what the parser reads past the end of a frame is arbitrary.
- A register is a record of the named bits that the modelled code changes and of the rest.
- Whether a wait for the hardware times out is an arbitrary function of its number (`Device.timesOut`,
  `Engine.timesOut`).  A word lands when the start bit is written, also when the wait after it times out.
- `dwxgmac3_rxp_config` writes the number of rows to the two count fields, `dwxgmac2_rx_parser_config`
  writes it less one.  The interpreter runs the stored count of rows of the first.
- Handle zero is that of the all-pass slot and stands for no rule.  Installed rules have other handles, and
  clearing handle zero frees the all-pass slot (`TcTable.ZeroHandleFreesLast`).
- In schedules and coalescing, 32-bit results are cut explicitly; counters and owner numbers of the shared
  tables wrap at 8 bits.

## Where the code falls short

Each of these is kept as it is, with the exact condition under which the code does what it is for, or
with a concrete input for which it does not.

| what | exactly when it is right | shown to happen |
|---|---|---|
| Word split of an unaligned key | the key is `KeySplit.SplitExact`: remainder 0 or 2, or an odd one whose mixed-up bytes ask the same question | `KeySplit.OddRemainderFails` |
| A refused action after a fragment slot was marked | the table stays well formed iff the request is not `TcTable.SpoilsTable` | `TcTable.SpoiledSlotLosesRule` |
| Deleting or replacing by a stale handle | iff `TcTable.LookupSound`: a free slot found by its leftover handle must not point at a slot in use, and the handle must have no rule (but for a lucky pointer) | `TcRequests.StaleHandleOccurs`, `StalePointers.StalePointerOccurs` |
| Replacing an installed rule by a refused one | iff the parser is off, or the table had room and the old rule is redundant (`TcDriver.RefusedReplacementIff`) | `TcDriver.RefusedReplacementOccurs` |
| A table with all 256 slots in use | the 8-bit row count becomes 0, and no frame is decided | `TcDriver.FullTableOccurs` |
| `dwxgmac2_rx_parser_init` after a timeout | reception stays off, unlike `dwxgmac3_rxp_config` | `RxpDirect.ParserInit` |
| A VLAN without references | admitted iff the last slot is vacant | `VlanTable.RefusedWithVacantSlot` |
| The 256th reference to a VLAN | the table stays right iff there are fewer than 255 before (`VlanTable.AddKeepsIff`) | `VlanTable.WrapLosesVlan` |
| Clearing a hash bit on deletion | right iff no other live entry shares the bucket (`VlanTable.FreesShared`, `MacTable.FreesShared`) | `VlanTable.SharedBucketCleared`, `MacTable.SharedBucketCleared` |
| Period encoding | accurate iff the clock is above 3906250 Hz and the picosecond remainder is not 999; the comment at tc956xmac_hwtstamp.c:243 says 3.921568 MHz | `PtpClock.RemainderOccurs` |
| Snapshot of a clock read slowly | right iff the second does not change both between the reads of the seconds and after them | `PtpClock.SlowReadsTear` |
| Interval range check of schedules | admits one bit more than the field has; the word round-trips iff the interval fits | `GateList.PackRoundTripIff` |
| Switching a schedule off | it is off iff it was off or no write timed out; success is reported in any case | `GateSchedule.SetupTaprio` |
| Clearing handle zero | never: it frees the all-pass slot | `TcTable.ZeroHandleFreesLast` |
| A flow with cookie zero | deleted iff every earlier slot has a nonzero cookie | `FlowTable.ZeroCookieStays` |
| The drop mark of a flow slot | right iff no flow that ever got the slot drops (`FlowTable.DropMarkIff`), or the flow itself drops | `FlowTable.DropMarkStays` |
| Reading a coalescing time back | within one unit iff the smallest unit fits | `Coalesce.LargerUnitOccurs` |
| A channel request that fails after claiming a channel | the channel stays claimed until someone releases it to whom it was not granted (`ChannelOwner.LostStaysIff`) | `ChannelOwner.LateFailureLoses`, `ChannelOwner.LateFailuresExhaust` |

## Model

| member | source | states |
|---|---|---|
| FrpRow.RowOfWordsOfRow | tc956xmac.h:290-302 | the packed row survives the trip through its four 32-bit words: no two fields overlap and none is lost |
| FrpRow.RowLayout | tc956xmac.h:290-302 | where each field lies: data, mask, a control word with the flags from bit 0, frame offset from bit 8, jump index from bit 16 and channel from bit 24, and the reserved word |
| KeySplit.SplitCorrectIffExact | tc956xmac_tc.c:148-183 | for every key: the emitted rows test every frame exactly as the masked key does at its byte offset, if and only if the split is exact |
| KeySplit.RowsHitIsRowTest | tc956xmac_tc.c:148-183 | which key byte the rows compare with which frame byte, for each remainder |
| KeySplit.InexactSplitWitness | tc956xmac_tc.c:170-173 | every key whose split is not exact has a word on which rows and key disagree |
| KeySplit.DistinguishingByte | tc956xmac_tc.c:170-173 | any two byte tests with another mask, or data that differ under it, are told apart by some byte |
| KeySplit.OddRemainderFails | tc956xmac_tc.c:170-173 | a key at remainder 1 and a frame it accepts that the rows miss |
| KeySplit.RowBytes | tc956xmac_tc.c:155-183 | both rows byte by byte: which key byte stands where, zero elsewhere, and no flag, jump, channel or reserved bit is set |
| TcTable.CheckedKey | tc956xmac_tc.c:127-146 | a request is taken up only with one key, whose offset is within the hardware's limit |
| TcTable.CheckedKeyMeaning | tc956xmac_tc.c:131-146 | taken or refused: exactly one key, for all protocols or IPv4, whose offset, scaled, past the Ethernet header and cut to 32 bits once, is within the limit; a negative offset may reach into the header |
| TcTable.SourceAddressOffset | tc956xmac_tc.c:131-143 | an unshifted IPv4 key at offset 12, the source address, is at byte 26 of the frame |
| TcTable.DecisionMeaning | tc956xmac_tc.c:94-115 | taken iff the first action is to accept or to drop, and a drop iff it is to drop |
| TcTable.PrioField | tc956xmac_tc.c:124 | shifting the priority keeps its 16 low bits and never reaches the search's "no priority" value |
| TcTable.FindFree | tc956xmac_tc.c:63-66 | the first slot not in use, if there is one |
| TcTable.FindHandle | tc956xmac_tc.c:63-72 | the last slot that carries the handle and is no fragment, in use or not |
| TcTable.InitialTable | tc956xmac_tc.c:41-53 | empty slots closed by the pass-all entry are well formed and hold no rule |
| TcTable.FillPlainKeeps | tc956xmac_tc.c:177-196 | an aligned request adds exactly its rule if its action is taken, and nothing otherwise |
| TcTable.FillSplitKeeps | tc956xmac_tc.c:155-196 | the same for a main entry and its fragment; a refused action leaves the table ill formed |
| TcTable.FillCorrect | tc956xmac_tc.c:118-196 | every request with a new handle: taken, it adds its rule and changes no other; refused, it changes none; the table stays well formed iff the request does not spoil it |
| TcTable.FillTakenIff | tc956xmac_tc.c:118-196 | exactly when a request is taken: it is well addressed, its first action is accept or drop, and a slot is free, or two for a key that is not word-aligned |
| TcTable.SpoiledSlotLosesRule | tc956xmac_tc.c:191-195 | after a spoiling request, the second of two accepted aligned requests never becomes a main entry |
| TcTable.ReleaseMainKeeps | tc956xmac_tc.c:198-213 | freeing a main entry and its fragment removes its rule and no other |
| TcTable.ZeroHandleFreesLast | tc956xmac_tc.c:198-213 | clearing handle zero finds the all-pass slot and frees it |
| TcTable.UnfillCorrectIffSound | tc956xmac_tc.c:198-213 | clearing any handle removes exactly its rule and keeps the table well formed, iff the handle is not zero and the look-up is sound |
| TcTable.StalePointerBreaks | tc956xmac_tc.c:67-68 | a look-up that ends at a free slot with a pointer to a slot in use damages another entry |
| TcTable.LookupSoundIff | tc956xmac_tc.c:63-72 | for an installed handle the look-up is sound iff no free slot after its main slot still carries the handle, or the last such slot points at the main slot by luck |
| RxpImage.ScheduleUnique | dwxgmac2_core.c:1668-1706 | a table has only one order of emission: ascending priority, ties by descending slot, every main entry once |
| RxpImage.RunEntry | dwxgmac2_core.c:1898-1904 | the rows of one filter decide a frame that they match, and otherwise hand over to the next filter's first row |
| RxpImage.RunFrom | dwxgmac2_core.c:1889-1936 | running from any filter on gives the verdict of the first later filter that matches, or acceptance |
| RxpImage.ReadingsAgree | tc956xmac_tc.c:148-183 | with exact splits, what the rows test and what the keys ask give every frame the same verdict |
| RxpImage.ImageCorrect | dwxgmac2_core.c:1864-1950 | compiler correctness: for every well-formed table and every frame, running the image decides the verdict of the first filter whose rows match, which with exact splits is the first whose key matches; it accepts if none does |
| RxpImage.ImageWritten | dwxgmac2_core.c:1894-1920 | every row of the image has no interrupt bit, channel or reserved bit set, a jump index only with a jump, and a decision only without |
| RxpImage.VerdictUnique | dwxgmac2_core.c:1668-1706 | a frame has only one such verdict |
| RxpImage.JumpsSound | dwxgmac2_core.c:1898-1919 | every jump goes to the position after its fragment, strictly forward, to a row that is loaded, in 8 bits; the fragment and every row without a jump decide |
| RxpImage.RowPerSlot | dwxgmac2_core.c:1889-1920 | as many rows as slots emitted |
| RxpImage.ImageFits | dwxgmac2_core.c:1889-1920 | the rows leave room for the pass-all row |
| RxParser.RowAddr | dwxgmac2_core.c:1633-1648 | the address of a row's first word, below 1024 with its three followers |
| RxParser.RowAddrWord | dwxgmac2_core.c:1633-1648 | the mask on the address never splits a row |
| RxParser.Device.UpdateWord | dwxgmac2_core.c:1636-1662 | for every pattern of timeouts: the word is stored or memory is as before; success iff no wait timed out; the steps on the window are a wait, data, address, operation, start and a wait, in that order |
| RxParser.Device.WriteWord | dwxgmac2_core.c:1717-1751 | the same for the other writer, which waits after setting up data and address, with its own order of steps |
| RxParser.Device.UpdateSingleEntry | dwxgmac2_core.c:1626-1666 | memory is as before but for the first n words of the row, all four on success; nothing else is stored |
| RxParser.Device.WriteEntry | dwxgmac2_core.c:1709-1755 | the same for the writer of ready-made rows |
| RxpConfig.MemRowsStored | dwxgmac2_core.c:1626-1666 | storing row n < 256 leaves the first n rows of memory alone and adds that row |
| RxpConfig.RowAliasAt256 | dwxgmac2_core.c:1633-1648 | row 256 would overwrite row 0 |
| RxpConfig.SameRulesHold | dwxgmac2_core.c:1877-1936 | loading rewrites guard bits and places, and changes no rule |
| RxpConfig.GetNextEntry | dwxgmac2_core.c:1668-1706 | the pending entry that comes before all other pending ones; none iff nothing is pending |
| RxpConfig.UpdateRow | dwxgmac2_core.c:1906-1911 | one slot becomes one more row of memory |
| RxpConfig.EmitEntry | dwxgmac2_core.c:1895-1919 | a main entry becomes its guard row and, directly after it, its own fragment |
| RxpConfig.ProgressStep | dwxgmac2_core.c:1889-1920 | emitting the next entry keeps the loop's invariant: in-hardware marks, order, and that the priority test hides nothing pending |
| RxpConfig.ProgressDone | dwxgmac2_core.c:1890-1893 | when the search finds nothing, every filter has been emitted |
| RxpConfig.EmitNext | dwxgmac2_core.c:1889-1920 | one turn of the loop: a timeout, the end with a complete schedule, or at least one more row |
| RxpConfig.EmitAll | dwxgmac2_core.c:1889-1920 | the endless loop ends; on success memory holds the image of the whole schedule |
| RxpConfig.EmitLast | dwxgmac2_core.c:1925-1936 | the pass-all row is written once, after all others |
| RxpConfig.Configure | dwxgmac2_core.c:1864-1950 | for every pattern of timeouts: words are stored only with reception and parser off; the reception setting is restored on every exit; the parser is on afterwards iff all rows were written and there are filters; then memory is the full image, whose rows have no stray bit set, and the counts its length |
| RxpDirect.HoldsOneMore | dwxgmac2_core.c:1709-1755 | storing row n < 256 of a ready-made table leaves earlier rows alone |
| RxpDirect.ParserConfig | dwxgmac2_core.c:1790-1811 | word 4r+i of memory is word i of row r for all rows; refused iff a count is zero |
| RxpDirect.ParserInit | dwxgmac2_core.c:1813-1862 | every exit: refusals that touch nothing, timeouts that leave reception off, the restored setting otherwise; words are stored only with reception and parser off; the parser is on only with the whole table stored |
| TcRequests.ConfigStepKeeps | tc956xmac_tc.c:215-234 | a new rule, whatever the outcome: the slots refine the map with it, or, after a refusal or a failed load, the previous map, iff the outcome is sound (a refusal does not spoil the table, a failed load finds the new entry) |
| TcRequests.StepKeeps | tc956xmac_tc.c:252-266 | the same iff for every request that is ready, new, replacing or deleting |
| TcRequests.DisciplinedSafe | tc956xmac_tc.c:55-82 | fresh nonzero handles and deletion of installed rules only are enough for every request to be ready and every outcome to be sound |
| TcRequests.DisciplinedStep | tc956xmac_tc.c:252-266 | such a request keeps what makes later ones safe: no free slot carries an installed handle, fragments carry their owner's |
| TcRequests.RunRefines | tc956xmac_tc.c:198-266 | over every such run, with any refusals and failed loads, the slots refine exactly the rules that the outcomes call for |
| TcRequests.SoundRunRefines | tc956xmac_tc.c:198-266 | the same over every run of ready requests with sound outcomes, replacements of installed rules included |
| TcRequests.ReplacedLookupIff | tc956xmac_tc.c:256-260 | after the successful replacement of an installed rule its handle can be looked up again iff no free slot after the new main slot still carries it, but for the lucky pointer |
| TcRequests.StaleHandleOccurs | tc956xmac_tc.c:67-68 | a run of four successful requests, for any three aligned rules and whatever the loads do to places and guards, after which the last rule is installed and clearing its handle clears nothing |
| StalePointers.StalePointerOccurs | tc956xmac_tc.c:67-68 | a run of seven successful requests with four fresh handles, from the initial table, after which a deleted handle still leads to a slot whose leftover pointer names another rule: clearing that handle, as a replacement does first, removes the other rule |
| TcRequests.InstallFills | tc956xmac_tc.c:215-234 | successful aligned requests with distinct handles, from the initial table: each takes the next slot, and all of them are installed |
| TcRequests.InitialRefines | tc956xmac_tc.c:269-337 | every run starts that way |
| TcDriver.RoomBoundsImage | dwxgmac2_core.c:1938-1941 | with a free slot, or fewer than 256, the row count fits its 8-bit field |
| TcDriver.FullTableCount | dwxgmac2_core.c:1938-1941 | with all 256 slots in use the count is 0 |
| TcDriver.FullTableStuck | dwxgmac2_core.c:1938-1946 | the parser is then on without a row, and decides no frame |
| TcDriver.FullTableOccurs | dwxgmac2_core.c:1938-1946 | 255 successful aligned requests, from the initial table of 256 slots, lead there |
| TcDriver.LoadEnforces | dwxgmac2_core.c:1864-1950 | a complete load decides every frame as the rules do |
| TcDriver.LoadInForce | dwxgmac2_core.c:1938-1946 | the same, read back from memory and the count register, for the table as the load has left it, full tables included |
| TcDriver.VerdictSame | tc956xmac_tc.c:191-195 | changes of free slots change no frame's verdict |
| TcDriver.Driver.constructor | tc956xmac_tc.c:323-332 | the initial table, with no rule |
| TcDriver.Driver.FindEntry | tc956xmac_tc.c:55-82 | the search in place: allots the first free slot, or finds the last slot with the handle |
| TcDriver.Driver.FillActions | tc956xmac_tc.c:84-116 | drop as the first action sets the reject flag and no other bit, accept the accept flag, in the fragment if there is one; anything else, or no action, is refused and changes nothing |
| TcDriver.Driver.FillEntry | tc956xmac_tc.c:118-196 | the fill in place does to the array what the function Fill does to its contents, in every branch |
| TcDriver.Driver.UnfillEntry | tc956xmac_tc.c:198-213 | the same for Unfill |
| TcDriver.Driver.ConfigKnode | tc956xmac_tc.c:215-234 | fill, load, and roll back: refused iff the request is badly addressed, has another first action, or finds too few free slots, and then the hardware is untouched; load failure iff a wait timed out, and then the parser is off; the table goes on standing for the previous rules, or on success for those and the new one, iff the outcome is sound |
| TcDriver.Driver.Load | dwxgmac2_core.c:1864-1950 | afterwards an enabled parser enforces the rules of the table or, with all 256 slots in use, decides no frame; it is on iff nothing timed out and there are rules |
| TcDriver.Driver.RemoveKnode | tc956xmac_tc.c:236-250 | the rule is gone from the table, and from the hardware or the parser is off |
| TcDriver.Driver.NewRule | tc956xmac_tc.c:261-262 | a new rule: table and hardware stay in step iff the outcome is sound |
| TcDriver.Driver.ReplaceRule | tc956xmac_tc.c:256-262 | a replacement: the same, iff moreover a refused one leaves nothing that an enabled parser enforces wrongly |
| TcDriver.Driver.SetupClsU32 | tc956xmac_tc.c:252-266 | every ready request takes the table and the rules one step; invalid exactly if the request is one that the driver does not take; table, rules and hardware stay in step iff the outcome is sound and a refused replacement stays in step |
| TcDriver.Driver.FrameVerdict | dwxgmac2_core.c:1864-1950 | between requests every frame gets acceptance while the parser is off; with it on, the verdict of the first rule whose rows match (whose key matches, with exact splits), or with a full table no decision |
| TcDriver.RefusedReplacementIff | tc956xmac_tc.c:256-260 | after the refused replacement of an installed rule, hardware that enforced the rules enforces those that are left iff the table had room and the old rule was redundant: every frame has the same verdict without it |
| TcDriver.RefusedReplacementOccurs | tc956xmac_tc.c:256-260 | a run that gets out of step: a drop rule is installed, a request to replace it is refused, and the hardware goes on dropping for an empty table |
| TcDriver.ServeNext | tc956xmac_tc.c:252-266 | any request on the hardware, passed on iff it is acceptable, which a caller can find out beforehand |
| TcDriver.Serve | tc956xmac_tc.c:252-266 | over every run of requests whatever, of which the acceptable ones are passed on and whatever loads fail, the rules are those that the outcomes call for, and an enabled parser decides every frame as they do or, with all 256 slots in use, decides none |
| TcDriver.FreshServed | tc956xmac_tc.c:252-266 | in a run with fresh handles every request is acceptable, except deletions of rules that are not installed |
| FirstRules.FirstImageWords | tc956xmac_tc.c:155-196 | the words that loading a first rule writes, from the request alone: one row for a word-aligned key, else a guard row that jumps to row 2 and a deciding row, then the pass-all row |
| FirstRules.FirstRuleDecides | dwxgmac2_core.c:1864-1950 | from request to frame: after a first rule with an exact split, a frame that matches its key is dropped iff its first action is to drop, and any other frame is accepted |
| FirstRules.TwoRulesDecide | dwxgmac2_core.c:1668-1706 | of two aligned rules that match a frame the one with the lower priority, in its 16 low bits, decides, and between equal ones the later |
| HashIndex.HashAdded | dwxgmac2_core.c:576-601 | setting the bucket of a new entry keeps the register equal to the buckets in use |
| HashIndex.HashClearedIffOwn | dwxgmac2_core.c:725-746 | clearing the bucket of a leaving entry does so iff no other live entry shares it |
| VlanTable.FreeEntryExists | dwxgmac2_core.c:1205-1238 | pigeonhole: an owner without an entry finds one free, so the unchecked index overwrites none |
| VlanTable.AddOwnerCounts | dwxgmac2_core.c:1205-1238 | one more reference of that owner, none of the others' changes, and the total stays the sum |
| VlanTable.DropOwnerCounts | dwxgmac2_core.c:1057-1078 | one less, if there is one; the slot is vacated exactly when the sum is zero |
| VlanTable.OccupiedIffOutstanding | dwxgmac2_core.c:1144-1170 | a slot carries a VLAN iff it has outstanding references, and its global counter is their number |
| VlanTable.AddKeeps | dwxgmac2_core.c:1268-1313 | an admitted addition adds exactly that reference, any other changes nothing |
| VlanTable.AddKeepsIff | dwxgmac2_core.c:1205-1238 | it does so iff there are fewer than 255 references to the VLAN; the next one wraps the counter of an occupied slot to zero |
| VlanTable.WrapLosesVlan | dwxgmac2_core.c:1057-1238 | from the empty table: after 257 additions of a VLAN and one deletion no slot carries it, though 256 references are outstanding |
| VlanTable.DeleteKeeps | dwxgmac2_core.c:1080-1100 | a deletion removes exactly that reference, if there is one |
| VlanTable.RunKeeps | dwxgmac2_core.c:1057-1313 | over every run with at most 255 references to a VLAN, the table is the multiset of references admitted and not yet deleted |
| VlanTable.DistinctVids | dwxgmac2_core.c:1144-1170 | occupied slots carry as many different live VLANs |
| VlanTable.LastSlotVacant | dwxgmac2_core.c:1144-1170 | first-fit placement takes the last slot only for the sixteenth live VLAN |
| VlanTable.AllAdmitted | dwxgmac2_core.c:1240-1266 | on every run that never has more than 15 live VLANs every nonzero VLAN is admitted |
| VlanTable.AdmitMeaning | dwxgmac2_core.c:1240-1266 | every answer, from the references alone but for the last slot: a nonzero VLAN with references is admitted whatever the slots, one without iff the last of the 16 slots is vacant |
| VlanTable.NewOwnerEntries | dwxgmac2_core.c:1144-1170 | a vacant slot is emptied of all owners, and its first entry takes the new one with one reference |
| VlanTable.RefusedIffLastOccupied | dwxgmac2_core.c:1240-1266 | a VLAN without references gets its first one, or is turned away with the references unchanged, iff the last slot is vacant, or occupied |
| VlanTable.RefusedWithVacantSlot | dwxgmac2_core.c:1240-1266 | from the empty table: after sixteen VLANs have been added and any but the last deleted, its slot is vacant and neither it nor a new VLAN is admitted |
| VlanTable.AddHash | dwxgmac2_core.c:1171-1196 | additions keep the hash register equal to the buckets of the occupied slots |
| VlanTable.DropHash | dwxgmac2_core.c:1101-1136 | deletions do so iff the vacated slot had its bucket to itself |
| VlanTable.HashKept | dwxgmac2_core.c:1057-1313 | every operation keeps the hash register equal to the buckets in use, iff it frees no slot whose bucket another live VLAN uses |
| VlanTable.HashRun | dwxgmac2_core.c:1057-1313 | on every run along which live VLANs occupy distinct buckets the hash register is the set of their buckets, whatever the hash function |
| VlanTable.SharedBucketCleared | dwxgmac2_core.c:1101-1136 | two VLANs of one bucket, added to the empty table: deleting one clears the bit of the other |
| VlanFilter.Filter.DuplicationHelper | dwxgmac2_core.c:1205-1238 | the loop over the owners, in place |
| VlanFilter.Filter.CheckDuplication | dwxgmac2_core.c:1240-1266 | the answer, which for a VLAN that no slot carries is left over from the last slot, and the reference that is counted at once for one that some slot carries |
| VlanFilter.Filter.AddActual | dwxgmac2_core.c:1144-1202 | the first vacant slot and the hash bit; nothing when the table is full |
| VlanFilter.Filter.UpdateVlanHash | dwxgmac2_core.c:1268-1313 | one more reference exactly if the VLAN is nonzero and has references or the last slot is vacant, and right iff the 8-bit counter does not wrap; the hash register goes on showing the buckets in use |
| VlanFilter.Filter.DelHelper | dwxgmac2_core.c:1057-1078 | the loop over the owners, in place |
| VlanFilter.Filter.DelVlan | dwxgmac2_core.c:1080-1142 | one reference less; the new hash register, and that it goes on showing the buckets in use iff no shared bucket is freed |
| MacTable.FreeEntryExists | dwxgmac2_core.c:804-839 | pigeonhole: a new owner finds a free entry and evicts none |
| MacTable.AddOwnerSets | dwxgmac2_core.c:804-839 | exactly that owner joins, and the counter stays the number of owners |
| MacTable.DropOwnerSets | dwxgmac2_core.c:688-701 | exactly that owner leaves; the slot is vacated when none is left |
| MacTable.AddKeeps | dwxgmac2_core.c:858-891 | where there is a slot for the address, exactly that pair joins |
| MacTable.DeleteKeeps | dwxgmac2_core.c:703-752 | exactly that pair leaves |
| MacTable.RunKeeps | dwxgmac2_core.c:688-891 | over every run of additions, and deletions of present addresses, the table is the set of pairs placed and not yet deleted |
| MacTable.NoSlotIff | dwxgmac2_core.c:754-801 | an addition finds no slot iff the address is zero, or new to a full table |
| MacTable.AddHash | dwxgmac2_core.c:782-790 | additions keep the hash register equal to the buckets of the occupied slots |
| MacTable.DropHash | dwxgmac2_core.c:725-746 | deletions do so iff the vacated slot had its bucket to itself |
| MacTable.RegsKept | dwxgmac2_core.c:654-752 | every operation keeps register 3+k enabled iff slot k is occupied, and reading back as its address |
| MacTable.ValuesReadBack | dwxgmac2_core.c:504-522 | the register pair as two 32-bit numbers, enable in bit 31 and source in bit 30 of the high one, determines it |
| MacTable.AddSetsReg | dwxgmac2_core.c:654-686 | an addition that takes a new slot enables that register pair with the address, and with the source bit iff the packet filter asks for it, and changes no other pair; any other addition changes none |
| MacTable.DeleteClearsReg | dwxgmac2_core.c:703-752 | a deletion that frees a slot clears its register pair to zero, source bit included, and changes no other; any other deletion changes none |
| MacTable.SourceKept | dwxgmac2_core.c:654-752 | every operation keeps the source bit of every occupied slot as the packet filter asks, and that of every vacant one clear |
| MacTable.HashKept | dwxgmac2_core.c:703-801 | every operation keeps the hash register right, iff it frees no slot whose bucket another live address uses |
| MacTable.RegistersRun | dwxgmac2_core.c:654-891 | both over every run: the address registers always, source bits included, the hash register along runs whose live addresses occupy distinct buckets |
| MacTable.SharedBucketCleared | dwxgmac2_core.c:725-746 | two addresses of one bucket, added to the empty table: deleting one clears the bit of the other |
| MacFilter.Filter.DuplicationHelper | dwxgmac2_core.c:804-839 | the loop over the owners, in place |
| MacFilter.Filter.CheckDuplication | dwxgmac2_core.c:841-856 | whether the address is new; if it is not, the owner has joined |
| MacFilter.Filter.AddActual | dwxgmac2_core.c:754-801 | the first vacant slot, its register with the address and the source bit as asked, and its hash bit; nothing when the table is full |
| MacFilter.Filter.AddAddress | dwxgmac2_core.c:858-891 | the pair joins if there is a slot; the new table and all registers; register 3+k stays enabled iff slot k is occupied and reads back as its address, with the source bit as asked |
| MacFilter.Filter.DelHelper | dwxgmac2_core.c:688-701 | the loop over the owners, in place |
| MacFilter.Filter.DelAddress | dwxgmac2_core.c:703-752 | the pair leaves; the new table and all registers, which go on agreeing with it, the hash register iff no shared bucket is freed |
| PtpClock.Clock.GetSystime | tc956xmac_hwtstamp.c:200-226 | for a clock that runs forward below 2^32 s: the time at the second read if the seconds agree, and else at the fourth, iff no second boundary is crossed both between the reads of the seconds and after them; never more than 64 bits |
| PtpClock.SnapshotRightIff | tc956xmac_hwtstamp.c:212-220 | the same of the four register values, however slow the reads are |
| PtpClock.TornIff | tc956xmac_hwtstamp.c:212-220 | exactly when the result is none of the four times |
| PtpClock.NotTorn | tc956xmac_hwtstamp.c:212-220 | reads within a second cross at most one boundary, so the result is right wherever the second rolls over |
| PtpClock.SlowReadsTear | tc956xmac_hwtstamp.c:212-220 | four slower reads whose result is none of the four times |
| PtpClock.PtpPeriod | tc956xmac_hwtstamp.c:229-259 | whole nanoseconds of the period, never cut by the 32-bit result |
| PtpClock.SubperiodIsRemainder | tc956xmac_hwtstamp.c:261-290 | the wrapping subtraction gives the picoseconds beyond the whole nanoseconds, at most 999, for every clock |
| PtpClock.CoarsePeriod | tc956xmac_hwtstamp.c:229-259 | in the coarse mode the period is 4 ns whatever the clock |
| PtpClock.IncrementMeaning | tc956xmac_hwtstamp.c:50-104 | digital mode: whole nanoseconds, and picoseconds to the nearest 1/256 ns; binary mode, for periods up to 16777 ns: the whole nanoseconds in units of 0.465 ns to the nearest 1/256 unit |
| PtpClock.ConfigSubSecondIncrement | tc956xmac_hwtstamp.c:50-104 | the register for every mode in the arithmetic of a 64-bit build: whole units and rounded 1/256 units of 1 ns, or of 0.465 ns, each cut to 8 bits |
| PtpClock.BinaryRightIff | tc956xmac_hwtstamp.c:80-87 | in binary rollover mode units and rest come out right iff the period is at most 16777 ns; beyond, a 32-bit product wraps |
| PtpClock.PeriodFitsIff | tc956xmac_hwtstamp.c:229-259 | the whole nanoseconds fit 8 bits iff the clock is above 3906250 Hz |
| PtpClock.NotCutIff | tc956xmac_hwtstamp.c:59-91 | neither field is cut iff, moreover, the remainder is not 999; 999 is cut to zero |
| PtpClock.EncodingAccurateIff | tc956xmac_hwtstamp.c:50-104 | the register stands for the period within 1/512 ns + 1/1000 ns iff neither field is cut |
| PtpClock.RemainderOccurs | tc956xmac_hwtstamp.c:88-91 | a clock of 250000001 Hz has remainder 999; its register stands for 3 ns |
| PtpClock.PeriodDigits | tc956xmac_hwtstamp.c:229-290 | the true period lies in the picosecond that the two quotients name |
| ChannelOwner.DriverUntouched | tc956x_ipa_intf.c:721-733 | the guards: no command, whatever channel it names, changes the owner or the event mask of a channel that the driver uses, or gives the driver one |
| ChannelOwner.StepAccounted | tc956x_ipa_intf.c:518-807 | every command keeps the accounts: the offloader owns exactly the live channels, each granted once, and the lost ones |
| ChannelOwner.ClaimedPlace | tc956x_ipa_intf.c:202-254 | a request claims only a channel that was unused |
| ChannelOwner.OffloaderCount | tc956x_ipa_intf.c:601-654 | channels owned by the offloader = live channels + channels lost by requests that failed after claiming one |
| ChannelOwner.SamePlaces | tc956x_ipa_intf.c:256-395 | live channels have as many different directions and numbers |
| ChannelOwner.ReleaseLive | tc956x_ipa_intf.c:687-807 | releasing a live channel releases that one and no other |
| ChannelOwner.LateFailureLoses | tc956x_ipa_intf.c:293-324 | a request whose resources cannot be allocated loses the first unused channel of its direction |
| ChannelOwner.LateFailuresExhaust | tc956x_ipa_intf.c:202-324 | two such requests lose both channels: none of that direction can be granted any more, though none is live |
| ChannelOwner.LostStaysIff | tc956x_ipa_intf.c:321-324 | a lost channel stays lost iff the command does not release it, which takes a caller to whom it was not granted |
| ChannelOwner.RunKeeps | tc956x_ipa_intf.c:518-807 | over every run of commands on any channels the accounts are right and the driver's channels keep owner and mask |
| ChannelOwner.LostCount | tc956x_ipa_intf.c:601-654 | conservation over every run: lost channels + recoveries = those lost before + requests that failed after claiming one |
| ChannelOwner.Channels.constructor | tc956x_ipa_intf.c:202-254 | with no channel owned by the offloader, no channel is live or lost |
| ChannelOwner.Channels.FindFree | tc956x_ipa_intf.c:202-254 | the search in place: the first unused channel changes hands, and no other |
| ChannelOwner.Channels.Claim | tc956x_ipa_intf.c:256-395 | the search in the direction of the request leaves the other direction alone |
| ChannelOwner.Channels.RequestChannel | tc956x_ipa_intf.c:518-666 | granted iff the sizes and direction are valid, memory suffices and a channel is unused; a new channel, the first unused one; exactly a request that fails after claiming one loses it |
| ChannelOwner.Channels.ReleaseChannel | tc956x_ipa_intf.c:687-807 | for any channel: refused unless the offloader owns it, and then nothing changes; otherwise it is unused again, and no longer live or lost |
| ChannelOwner.Channels.SetEvent | tc956x_ipa_intf.c:982-1139 | for any channel: refused unless the offloader owns it; otherwise only its event changes |
| ChannelOwner.EventsSet | tc956x_ipa_intf.c:982-1139 | on a channel of the offloader, enabling clears the mask bit and disabling sets it, and no other bit and no owner changes |
| ChannelOwner.WithinLimitsClaims | tc956x_ipa_intf.c:518-666 | a request with all its memory and one of the two channels unused claims one iff it asks for at most 512 descriptors and 9216 bytes |
| ChannelOwner.Serve | tc956x_ipa_intf.c:518-807 | over every run of requests, releases and event settings on any channels: no owner or event mask of the driver's channels changes, and each late failure loses exactly one channel |
| GateList.AcceptedIff | tc956xmac_tc.c:717-745 | a list is accepted iff every entry is in range and its commands are SET_GATES* (HOLD or RELEASE)* |
| GateList.DecodeWidth | tc956xmac_tc.c:659-671 | interval widths of 16, 20 and 24 bits, and no others |
| GateList.DecodeDepth | tc956xmac_tc.c:673-691 | list depths of 64 to 1024, and no others |
| GateList.InRangeMeaning | tc956xmac_tc.c:722-725 | in range: an interval below 2^(width + 1), and gates below 2^(32 - width) |
| GateList.FirstFailure | tc956xmac_tc.c:718-745 | which status the first failing entry gives: out of range, an unknown command, or SET_GATES after a preemption command, in that order |
| GateList.AdjustedGates | tc956xmac_tc.c:727-742 | holding sets gate 0, releasing clears it, and no other gate changes |
| GateList.PackRoundTripIff | tc956xmac_tc.c:722-744 | a range-checked word unpacks to its interval and gates iff the interval fits the field; the check lets one bit more through |
| GateList.EntryRoundTripIff | tc956xmac_tc.c:722-744 | the same for an entry and its adjusted gates |
| GateSchedule.SplitTimeExactIff | tc956xmac_tc.c:747-758 | seconds and nanoseconds, the latter below one second, stand for the time iff it is not negative and below 2^32 s |
| GateSchedule.SplitTimeWraps | tc956xmac_tc.c:747-758 | and for every time they stand for it but for whole multiples of 2^32 s |
| GateSchedule.RefusalMeaning | tc956xmac_tc.c:645-760 | the refusals in their order: no schedules or unknown sizes, too long a list, a zero time, the first failing entry, and preemption without support |
| GateSchedule.WriteRegisters | dwxgmac2_core.c:2411-2418 | all six registers are written, and only then any timeout counts |
| GateSchedule.EstConfigure | dwxgmac2_core.c:2385-2499 | on success the hardware holds registers and list; on failure it is not switched |
| GateSchedule.FillList | tc956xmac_tc.c:717-745 | the loop: the first entry that fails decides; accepted, the list is packed in order |
| GateSchedule.SetupTaprio | tc956xmac_tc.c:645-786 | every refusal, which leaves the hardware alone; otherwise success iff no write timed out, and then the hardware holds the packed list, both times and preemption; a schedule comes on only by success; switching off always reports success, and leaves the schedule on iff it was on and a write timed out |
| FlowTable.FindFlow | tc956xmac_tc.c:540-556 | the first slot with the cookie or, if asked, the first such or free one |
| FlowTable.SlotForIs | tc956xmac_tc.c:567-578 | a flow's own slot, else the first free one; none iff the table is full of others |
| FlowTable.AddMeaning | tc956xmac_tc.c:567-597 | full iff no slot is left; done iff there are actions and the slot was in use or any of the three parsers takes the flow; then the slot carries the cookie, and is a port filter iff it was or the port parser took the flow |
| FlowTable.L4Kept | tc956xmac_tc.c:540-620 | every operation keeps free slots free of the port mark, so a flow in a new slot is a port filter iff the port parser took it |
| FlowTable.AddKeeps | tc956xmac_tc.c:567-597 | exactly that flow joins; refused, nothing changes; full exactly if no slot is left |
| FlowTable.AddKeepsIff | tc956xmac_tc.c:567-597 | for any cookie: the array goes on standing for the flows iff no flow with cookie zero is installed |
| FlowTable.NothingToDelete | tc956xmac_tc.c:599-606 | deleting cookie zero from such an array finds no flow and changes nothing |
| FlowTable.DeleteKeeps | tc956xmac_tc.c:599-620 | exactly that flow leaves |
| FlowTable.RunKeeps | tc956xmac_tc.c:540-620 | over every run with nonzero cookies the array is the injective map from flows to slots |
| FlowTable.SlotStable | tc956xmac_tc.c:540-620 | a flow keeps its slot until it is deleted |
| FlowTable.ZeroCookieFreedIff | tc956xmac_tc.c:540-556 | deleting cookie zero frees exactly the flow in slot i iff every earlier slot has a nonzero cookie |
| FlowTable.ZeroCookieStays | tc956xmac_tc.c:540-620 | a run from the empty table that leaves a flow with cookie zero that cannot be deleted |
| FlowTable.DropMarkRightIff | tc956xmac_tc.c:580-597 | an added flow is installed with its own decision iff its slot has no drop mark, or it drops |
| FlowTable.DropMarkIff | tc956xmac_tc.c:540-620 | over every run a slot has the drop mark iff it had it before, or some flow that got the slot, accepted or not, drops |
| FlowTable.DropMarksGrow | tc956xmac_tc.c:540-620 | no operation of any run clears a drop mark |
| FlowTable.DropMarkStays | tc956xmac_tc.c:599-620 | a run from the empty table that installs a flow without a drop action as a drop flow |
| FlowTable.Table.Find | tc956xmac_tc.c:540-556 | the search, in place |
| FlowTable.Table.AddFlow | tc956xmac_tc.c:567-597 | the addition, in place: table and installed flows stay in step iff no flow with cookie zero is installed |
| FlowTable.Table.DelFlow | tc956xmac_tc.c:599-620 | the deletion, in place |
| Coalesce.UsecToRiwt | tc956xmac_ethtool.c:1148-1166 | the count in the least of the four units in which it fits 8 bits, else in the largest |
| Coalesce.UnknownClock | tc956xmac_ethtool.c:1148-1189 | without a known clock 250 MHz are assumed, in both directions |
| Coalesce.UnitOfCount | tc956xmac_ethtool.c:1168-1189 | reading back takes a count to be in the least unit of which 255 reach it, else in the largest |
| Coalesce.Private.LimitsMeaning | tc956xmac_ethtool.c:1207-1258 | at most 32 receive frames, 256 transmit frames and 100000 microseconds, not both transmit limits zero, and a watchdog count from 1 to 255 |
| Coalesce.RoundTripLoss | tc956xmac_ethtool.c:1148-1189 | when the smallest unit fits, reading back never adds time and loses at most one unit rounded up to microseconds |
| Coalesce.LargerUnitReadsBackShort | tc956xmac_ethtool.c:1148-1189 | every accepted setting that does not fit the smallest unit, wrapped counts included, reads back as at most half of it |
| Coalesce.ReadsBackIff | tc956xmac_ethtool.c:1148-1189 | an accepted setting reads back within one unit, rounded up, iff it fits the smallest unit (for clocks up to 32 GHz) |
| Coalesce.LargerUnitOccurs | tc956xmac_ethtool.c:1148-1189 | 400 microseconds at 250 MHz are accepted and read back as 199 |
| Coalesce.Private.SetCoalesce | tc956xmac_ethtool.c:1207-1258 | done iff all limits hold and the watchdog count is in range; frame and timer fields change only then, but a valid receive time is in force before later checks refuse the rest |

## Left out

- ConfigSubSecondIncrement: models the 64-bit build; in binary rollover mode a 32-bit build wraps at longer periods.
- EncodingAccurateIff: says nothing of binary rollover mode, whose unit of 0.465 ns is itself rounded.
- DelAddress: is for an address that is in the table; for an absent one the driver reads past the table (dwxgmac2_core.c:703-752).
- ReleaseChannel: takes any channel with a number within the driver's tables; the null-pointer checks, and that a released structure is freed memory, are not modelled.
- RequestChannel: models default memory allocation; allocation callbacks are foreign code, and with them the driver ignores a failed channel search (tc956x_ipa_intf.c:601-607).
- UpdateVlanHash: does not model the VLAN tag and data registers.
- AddAddress: does not model the channel-select bits, for which no clean invariant holds, nor the packet filter bits and the promiscuous fallback of a full table.
- HashOk: the CRC is an arbitrary function to buckets, and the hash mode is fixed.
- RunRefines: is for fresh handles; SoundRunRefines covers the replacement of installed rules.
- SetupClsU32: is not for handle zero, nor for deletions and replacements whose look-up is unsound; UnfillCorrectIffSound says that the table is then damaged, and loading a damaged table is not modelled.
- SetupTaprio: needs a configuration that is already allocated; switching off without one dereferences a null pointer in the driver.
- RiwtToUsec: needs a clock of at least 1 MHz; below, the driver divides by zero.
- Parse: the flow parsers count with their outcomes only; what they program into the hardware is not modelled.
- The size decode of the parser (frpes), done twice in the driver: the table size is a parameter, at most 256.
- Actions of tc other than accept and drop, and u32 commands other than new, replace and delete: one refusal each.
- Classic shaper (CBS) and ETF setup: parameter checks and register writes.
- Subtraction in `adjust_systime`: its meaning depends on a carry in the hardware that is not documented.
- PCI probing, power management, firmware, PHY and link bring-up: fixed register sequences.
- Descriptor rings, receive and transmit paths, DMA mappings: the driver's main file is not part of this model.
- Statistics, strings, self tests, platform defaults: tables and copies.
- Locks, delays and endianness beyond little-endian words.
