# Models of the ath6kl driver's protocols and algorithms

The repository is a Wi-Fi driver for Atheros AR600x devices together with the `iw` tool. These
modules model the parts of it that are algorithms or protocols and prove what the parts promise,
over all inputs and all runs. Where the source changes state step by step, a class with the source's
fields and loops is proved against plain functions, and the promises are lemmas about those
functions or an invariant `Valid()` that every method keeps.

| file | what it models |
|---|---|
| `Words.dfy`, `Bits.dfy` | little-endian words, 32-bit wrap-around, bit operations on unsigned words |
| `TargetMemory.dfy` | the target's memory as a byte store; one plain copy and what it means |
| `Bmi.dfy` | the bootloader protocol: chunked reads and writes, compressed downloads, the DONE gate |
| `RegDomain.dfy` | patching the regulatory domain through that protocol without breaking the board data's checksum |
| `WowPattern.dfy` | wake-on-wireless patterns: typed text, packed bit mask, firmware byte mask, and the printer |
| `AudioRing.dfy` | the direct-audio receive ring, producer and reader interleaved, and the send drain |
| `AclTables.dfy` | the access-control slot table, its mirror in the firmware, and the ioctl table |
| `KeepAlive.dfy` | keep-alive configuration and the two-phase timer |
| `KeepAliveClock.dfy` | the host's estimate of a station's activity from a wrapping 16-bit clock |
| `Admission.dfy` | ownership of queued association requests |
| `VifIndex.dfy` | the bitmap allocator of interface indices |
| `Ies.dfy` | parsing information elements, and the three filters |
| `Rsn.dfy` | the RSN element (section 7.3.2.25 of IEEE Std 802.11-2007) and its two readers |
| `Scan.dfy` | scan ownership over interleaved handlers, with the recommended-channel scan split at its wait |
| `Sme.dfy` | the connection state of a station and its reports to cfg80211 |

## What the proofs found

- A BMI write of any length is one memory copy. With whole-word chunks it touches the length rounded
  up to four bytes; with other chunk sizes only the last chunk is padded (`Bmi.Touched`). The padding
  bytes are whatever follows the source; the model takes them as an arbitrary argument.
- The header example (`nl80211.h:2188-2190`) gives the mask `0xed,0x07`; the code produces
  `0xed,0x01`, and only that one is right (`WowPattern.HeaderExample`).
- Printing a pattern and parsing the text is a round trip except for the empty pattern, whose empty
  text parses as one zero byte (`WowPattern.PrintParse`).
- Resetting the access-control list empties any table, whether or not an address occurs in it twice
  (`AclTables.ApAcl.ConfigMacListReset`).
- A policy command alone keeps the firmware's list a mirror of the table exactly under the condition
  stated by `AclTables.ApAcl.ConfigPolicy`; the driver's own sequences always meet it.
- The two access-control tables diverge only over the all-zero address, which the ioctl search cannot
  tell from a zeroed free slot: adding it while two slots are free, or adding or removing it while it
  is stored with a free slot after it (`AclTables.SameStep`, and `AclTables.RunsAgree` for whole runs).
  The second kind takes two adds and removes to reach while the tables agree
  (`AclTables.ZeroDiverges`).
- The interval and the cycle count are multiplied in 32 bits, so a large request can overflow into a
  short remove time (`KeepAlive.OverflowingRequest`); the remove time is the true product exactly when
  the clamped request does not overflow, or overflows to something that is refused
  (`KeepAlive.ConfiguredProduct`).
- Reconfiguring a running keep-alive timer counts the lead time of 2000 ms in seconds (`ap.c:379`), so
  the timer is armed in the past and fires at once. Only an overflowing request that is taken for a
  short one can arm it ahead (`KeepAlive.ApKeepAlive.Config`, `KeepAlive.ArmedInThePast`).
- The first interface is never counted (`init.c:3187-3197` does not increment `num_vif`), so from the
  driver's own start the counter is one less than the number of interfaces and its limit is never
  reached; the index search is what bounds the number (`VifIndex.Device.CounterMeaning`).
- The driver's RSN reader passes over a well-formed element of at most 18 bytes even when it has a
  capabilities field (`Rsn.ShortElementPassedOver`), and a field of 0xffff is never configured
  (`Rsn.DriverTakesShownCap`).
- Stopping an interface reports a disconnection in every state but Connecting. A run reports more
  disconnections than successful connections exactly when it stops an idle interface more often than
  it leaves a connection without a report (`Sme.DisconnectsBoundedWhen`, `Sme.StopBreaksBound`).
- `scan_req` is set without SCANNING exactly for the coexistence code's own scan, unless a
  recommended-channel scan waits (`Scan.UnmarkedIsCoexistence`), so a user request may replace it
  (`Scan.CoexistenceScansUnmarked`). No request of a user is lost or answered twice for that.
- The receive ring needs a headroom of at least the 14 bytes of a link header; with less, a store
  reaches into the slot's descriptor or the slot before (`AudioRing.StoreStaysBehindDescriptor`).

## Model

| member | source | states |
|---|---|---|
| Words.FromLe32RoundTrip | drivers/ath6kl/bmi.c:223-231 | a source word loaded as a u32 and stored again is the same four bytes, so the single-word write sends what the general one would |
| Bits.XorBits | drivers/ath6kl/intra_reg.c:84 | exclusive or differs bit by bit |
| Bits.AndBits | drivers/ath6kl/cfg80211.c:6078-6080 | masking is conjunction bit by bit |
| TargetMemory.PokeAt | drivers/ath6kl/bmi.c:233-240 | what a copy leaves in every one of the 2^32 addresses: the data in its range, the old byte elsewhere |
| TargetMemory.PokeNext | drivers/ath6kl/bmi.c:221-258 | a copy continued at the wrapped address after `sent` bytes is the longer copy |
| TargetMemory.PeekPoke | drivers/ath6kl/bmi.c:116-267 | reading a copied range gives the source back |
| Bmi.TouchedAligned | drivers/ath6kl/bmi.c:221-230 | with whole-word chunks a write of any length covers the length rounded up to four bytes, although padding raises the remaining length inside the loop |
| Bmi.TouchedExact | drivers/ath6kl/bmi.c:221-230 | for chunks of any size a write covers its whole chunks and the rest rounded up to four bytes |
| Bmi.WriteIsOneCopy | drivers/ath6kl/bmi.c:189-267 | with whole-word chunks a complete write leaves the source in its range and reads back as the source, and no byte past the rounded-up length changes |
| Bmi.Host.constructor | drivers/ath6kl/bmi.c:603-616 | after initialisation the interface is open, nothing was sent, and the command buffer has room for a header and the transfer size |
| Bmi.Host.BmiWrite | drivers/ath6kl/bmi.c:189-267 | an open host whose transfer fits the command buffer and 400 bytes succeeds over a faultless link, and each refusal has its error code and sends nothing; memory afterwards is one plain copy of the part sent, even when the link fails midway, and success sends it all, padding included |
| Bmi.Host.BmiRead | drivers/ath6kl/bmi.c:116-187 | an open host whose transfer fits the command buffer succeeds over a faultless link; success fills exactly the first len bytes of the buffer with target memory; memory and the rest of the buffer stay as they were |
| Bmi.Host.OneShot | drivers/ath6kl/bmi.c:269-467 | the one-frame commands append exactly their frame to the command log, or nothing with an error |
| Bmi.Host.LzStreamStart | drivers/ath6kl/bmi.c:525-565 | opens one new, empty stream at the address |
| Bmi.Host.LzData | drivers/ath6kl/bmi.c:469-523 | the open stream grows by exactly the bytes sent, all of them on success |
| Bmi.WholeStream | drivers/ath6kl/bmi.c:567-596 | opening, filling and flushing a stream amounts to one stream holding the data and one empty stream |
| Bmi.Host.FastDownload | drivers/ath6kl/bmi.c:567-596 | the target sees one stream holding exactly the image zero-padded to whole words, then the empty stream at 0 |
| Bmi.Host.BmiDone | drivers/ath6kl/bmi.c:22-43 | DONE is sent once; afterwards the interface is closed |
| Bmi.Host.BmiReset | drivers/ath6kl/bmi.c:598-601 | reopens the interface |
| Bmi.NothingFollowsDone | drivers/ath6kl/bmi.c:22-43 | over any run, which keeps the log orderly (`Host.Valid`), a command after DONE is separated from it by a reset |
| Bmi.EveryCommandFits | drivers/ath6kl/bmi.c:469-523 | over any run every command fits the command buffer, and compressed data with its header fits the transfer size |
| Bmi.CommandCodes | drivers/ath6kl/bmi.h:51-233 | how each command begins on the wire |
| RegDomain.ChecksumUpdate | drivers/ath6kl/intra_reg.c:88-90 | replacing one word changes the exclusive or of all words by old xor new |
| RegDomain.ChecksumPatched | drivers/ath6kl/intra_reg.c:85-101 | a word and the checksum word replaced together leave the exclusive or of all words unchanged |
| RegDomain.PatchWord | drivers/ath6kl/intra_reg.c:80-86 | storing a 32-bit word whose upper half repeats memory changes one 16-bit word of the board data |
| RegDomain.TwoStoresBoard | drivers/ath6kl/intra_reg.c:79-101 | the two stores change just the domain word and the checksum word of a board of any size |
| RegDomain.TwoStoresPatch | drivers/ath6kl/intra_reg.c:79-101 | hence the checksum of the board holds and the domain word is the new one |
| RegDomain.PatchBoard | drivers/ath6kl/intra_reg.c:66-101 | success is exactly the two stores; any failure leaves every byte outside the two words alone |
| RegDomain.SetRd | drivers/ath6kl/intra_reg.c:26-104 | for each of the three targets, at its board-data address and domain word, through the chunked transfers: an open host over a faultless link succeeds, success patches the domain and keeps the checksum; an unknown target sends nothing |
| WowPattern.TokensFit | apps/iw-3.0/util.c:54-71 | non-empty tokens always fit the buffers sized from the text |
| WowPattern.PlainTokenParses | apps/iw-3.0/util.c:81-95 | a token of one or two hexadecimal digits parses as its value, a wildcard as no condition |
| WowPattern.EveryByteParses | apps/iw-3.0/util.c:88-93 | every byte written with two digits, each in either case, parses as that byte, and so does a single digit |
| WowPattern.WildcardsParse | apps/iw-3.0/util.c:81-84 | no condition stands for exactly the three wildcards |
| WowPattern.NumberParses | apps/iw-3.0/util.c:88-92 | every number with space, sign and prefix parses to the low 32 bits of its value exactly when those are a byte; negative ones count down from 2^64, and one out of range never parses |
| WowPattern.JunkRejected | apps/iw-3.0/util.c:89-90 | a character that no number contains makes a token fail |
| WowPattern.PlainTextParses | apps/iw-3.0/util.c:73-106 | text of such tokens always parses, to slots that accept exactly the packets the text describes |
| WowPattern.NextToken | apps/iw-3.0/util.c:74-78 | cuts out the text up to the next colon and overwrites just that colon |
| WowPattern.ParseHexMask | apps/iw-3.0/util.c:51-113 | succeeds exactly when every token parses; bytes, mask bits and length are the encoding of the parsed slots, and the text has lost just its separators |
| WowPattern.ExpandMask | drivers/ath6kl/cfg80211.c:6075-6082 | one byte of 0xff for each set mask bit below the length, zero elsewhere |
| WowPattern.ExpandedAcceptsSame | drivers/ath6kl/cfg80211.c:6066-6096 | the byte mask and the bit mask accept the same packets |
| WowPattern.EncodedAcceptsSame | apps/iw-3.0/wowlan.c:57-67 | the two attributes accept what the slots accept |
| WowPattern.ConfigurePattern | apps/iw-3.0/wowlan.c:57-67 | through parser, attributes and expansion, the firmware accepts exactly the packets the text describes |
| WowPattern.HeaderExample | apps/iw-3.0/nl80211.h:2188-2190 | the documented example is encoded as 0xed, 0x01, and 0xed, 0x07 does not encode it |
| WowPattern.PrintPattern | apps/iw-3.0/wowlan.c:150-167 | a pattern with a mask of matching length is printed slot by slot, any other is refused |
| WowPattern.SlotText | apps/iw-3.0/wowlan.c:159-162 | bytes are printed with two lower-case digits, positions without a condition as two dashes |
| WowPattern.PrintedParses | apps/iw-3.0/wowlan.c:158-165 | the printed text of a pattern of at least one byte parses back to it |
| WowPattern.PrintParse | apps/iw-3.0/util.c:73-106 | printing and parsing is a round trip if and only if the pattern is not empty |
| WowPattern.PrintedFits | apps/iw-3.0/util.c:54-71 | the printed text is one the parser takes, its buffers large enough |
| WowPattern.PrintParseBytes | apps/iw-3.0/wowlan.c:158-165 | byte by byte: the parsed result has the same length, the same mask bits below it and none above, the same bytes where the mask is set and zero elsewhere |
| AudioRing.ComposeCarries | drivers/ath6kl/direct_audio.c:192-218 | byte for byte what the reader finds in a slot: the frame without its trailer, cut to the slot, with the timestamp over bytes 4 to 8 of the payload |
| AudioRing.MarkedFrame | drivers/ath6kl/direct_audio.c:195-218 | a frame that ends in the mark and a timestamp: the payload size without those eight bytes is announced, and header and payload are stored with the timestamp over payload bytes 4 to 8 |
| AudioRing.UnmarkedFrame | drivers/ath6kl/direct_audio.c:195-218 | without the mark all of the frame is stored, with a zero timestamp |
| AudioRing.WrapTest | drivers/ath6kl/direct_audio.c:236-242 | the pointer test at the end of the pool holds exactly at the last slot |
| AudioRing.SlotsInPool | drivers/ath6kl/direct_audio.c:236-242 | every slot visited lies inside the pool if and only if the unit length divides the pool size |
| AudioRing.StoreStaysBehindDescriptor | drivers/ath6kl/direct_audio.c:207-214 | a frame of any length is stored inside its slot and behind the descriptor if and only if the headroom has room for the link header |
| AudioRing.RxRing.constructor | drivers/ath6kl/direct_audio.c:68-79 | the ring starts empty at its first slot |
| AudioRing.RxRing.RxCheck | drivers/ath6kl/direct_audio.c:188-191 | a frame is dropped exactly when the ring is full |
| AudioRing.RxRing.RxFill | drivers/ath6kl/direct_audio.c:193-218 | the frame is stored in a free slot; the unread slots stay one window holding the undelivered frames in order |
| AudioRing.RxRing.RxPublish | drivers/ath6kl/direct_audio.c:231 | the stored frame joins the accepted ones |
| AudioRing.RxRing.RxAdvance | drivers/ath6kl/direct_audio.c:236-242 | the write pointer is again where the window of unread slots ends |
| AudioRing.RxRing.Consume | drivers/ath6kl/direct_audio.c:84-87 | at any moment the reader gets the oldest undelivered frame, so what was delivered is a prefix of what was accepted |
| AudioRing.RxRing.SdaRxFun | drivers/ath6kl/direct_audio.c:173-246 | a whole call: a full ring drops just the new frame, else exactly that frame is accepted, whatever the reader takes during the callback |
| AudioRing.SdaTxFun | drivers/ath6kl/direct_audio.c:88-170 | sends and releases exactly the unbroken run of ready slots at the start, in order, each once even when the pointer wraps |
| AclTables.AddAllAddresses | drivers/ath6kl/cfg80211.c:4826-4836 | adding no more addresses than free slots adds them all and makes no duplicate |
| AclTables.ApAcl.constructor | drivers/ath6kl/ap.c:521-541 | the table starts empty, the list off, the firmware in step |
| AclTables.ApAcl.Search | drivers/ath6kl/ap.c:678-690 | the first slot holding the address; without one, the first free slot |
| AclTables.ApAcl.ConfigMacList | drivers/ath6kl/ap.c:662-741 | adds to the first free slot or frees the address's slot, ignores the rest, and keeps the firmware list a mirror |
| AclTables.ApAcl.ConfigMacListReset | drivers/ath6kl/ap.c:743-763 | empties every table and keeps the mirror |
| AclTables.ApAcl.SendAll | drivers/ath6kl/ap.c:625-650 | the firmware list gains every used slot |
| AclTables.ApAcl.ConfigPolicy | drivers/ath6kl/ap.c:601-660 | the mirror survives a policy command if and only if the list is on afterwards, was off or empty, or the command cleared the firmware |
| AclTables.ApAcl.Stop | drivers/ath6kl/ap.c:580-599 | table empty, list off, mirror kept, whether or not the policy command clears the firmware list |
| AclTables.ApAcl.AclConfig | drivers/ath6kl/cfg80211.c:4799-4837 | the list is allowing exactly for a non-empty list accepted unless listed, denying exactly for one denied unless listed, else off and empty in the firmware; exactly the first ten listed addresses are in the table, once each, and the firmware mirrors it |
| AclTables.AclDb.MacCmpWild | drivers/ath6kl/acl_ioctl.c:119-130 | differs exactly when some byte not masked out differs |
| AclTables.AclDb.AddMac | drivers/ath6kl/acl_ioctl.c:131-196 | takes the last matching slot or else the first unused one; fails exactly when there is neither; the firmware list stays the used slots |
| AclTables.AclDb.DeleteMac | drivers/ath6kl/acl_ioctl.c:198-251 | frees the last matching slot, if any; the firmware list stays the used slots |
| AclTables.AclDb.GetMac | drivers/ath6kl/acl_ioctl.c:253-294 | lists the used addresses in slot order, exactly when the buffer has room for all of them; running out of room midway leaves the semaphore held |
| AclTables.UsedMacsInOrder | drivers/ath6kl/acl_ioctl.c:276-288 | each used address is listed behind those of the used slots before it |
| AclTables.UsedMacsOnly | drivers/ath6kl/acl_ioctl.c:276-288 | nothing else is listed |
| AclTables.SameStep | drivers/ath6kl/acl_ioctl.c:145-158 | on every table without duplicates, the all-zero address included, both interfaces make the same step if and only if no zeroed slot misleads the ioctl search (`ZeroHarmless`: which address, and where the free slots lie) |
| AclTables.RunsAgree | drivers/ath6kl/acl_ioctl.c:145-247 | over every run the tables are equal after each step if and only if each step is harmless |
| AclTables.ZeroReached | drivers/ath6kl/acl_ioctl.c:145-247 | from any full table of non-zero addresses, replacing the first by the all-zero address and removing a later one keeps the tables equal |
| AclTables.ZeroDiverges | drivers/ath6kl/acl_ioctl.c:212-247 | after that run one slot is free, and then removing the all-zero address sets the tables apart, and so does adding it |
| AclTables.TenAddressesClean | drivers/ath6kl/ap.c:678-723 | there is such a full table |
| AclTables.TablesAgree | drivers/ath6kl/ap.c:678-723 | after any run of adds and removes of non-zero addresses both tables hold the same addresses in the same slots, without duplicates |
| KeepAlive.ConfiguredInForce | drivers/ath6kl/ap.c:338-372 | every request leads to an interval of at least the minimum and a remove time of at most the maximum |
| KeepAlive.ConfiguredCases | drivers/ath6kl/ap.c:338-372 | what each request leads to: itself, with at least 5000 ms and one cycle, if the product modulo 2^32 is below 900000 ms, else 15000 ms and four cycles |
| KeepAlive.Configure | drivers/ath6kl/ap.c:338-372 | the driver's computation in steps leads to those settings |
| KeepAlive.ConfiguredProduct | drivers/ath6kl/ap.c:354-372 | the remove time is interval times cycle if and only if the clamped request does not overflow to a product below the limit; it is then at least one interval |
| KeepAlive.ArmedInThePast | drivers/ath6kl/ap.c:374-379 | a reconfigured timer is armed in the past if and only if the clamped interval is below the lead time taken for seconds or the request does not so overflow |
| KeepAlive.OverflowingRequest | drivers/ath6kl/ap.c:354-379 | requests whose products overflow to a remove time of zero, one of them with an interval that arms the timer ahead |
| KeepAlive.BySupplicantInForce | drivers/ath6kl/ap.c:400-439 | the same bounds for the supplicant's limit, and the remove time is that limit rounded down to whole intervals |
| KeepAlive.BySupplicantCases | drivers/ath6kl/ap.c:405-439 | what each limit leads to: intervals of 5000 ms up to 15000 ms, of 15000 ms above, and sixty of them beyond the maximum |
| KeepAlive.ConfigureBySupplicant | drivers/ath6kl/ap.c:405-439 | the driver's computation in steps leads to those settings |
| KeepAlive.ApKeepAlive.constructor | drivers/ath6kl/ap.c:204-250 | the timer starts idle; each mode sets its flag, and the settings are the default if enabled, else zero |
| KeepAlive.ApKeepAlive.Start | drivers/ath6kl/ap.c:272-296 | arms the preload phase one lead time before the interval ends |
| KeepAlive.ApKeepAlive.Stop | drivers/ath6kl/ap.c:298-317 | no timer is pending afterwards |
| KeepAlive.ApKeepAlive.Config | drivers/ath6kl/ap.c:319-398 | applies exactly when the driver owns the configuration; zero disables; a running timer is rearmed in the past, except for the overflowing requests that `ArmedInThePast` tells apart |
| KeepAlive.ApKeepAlive.ConfigBySupplicant | drivers/ath6kl/ap.c:400-447 | replaces the settings and leaves the timer alone |
| KeepAlive.ApKeepAlive.Fire | drivers/ath6kl/ap.c:147-202 | preload and check alternate; a check comes exactly one lead time after its preload (`Valid` keeps `WellTimed`) |
| KeepAlive.CheckAfterPreload | drivers/ath6kl/ap.c:163-199 | in every well-timed history each check comes 2000 ms after a preload |
| KeepAlive.ChecksKeepStep | drivers/ath6kl/ap.c:163-199 | in every well-timed history, k checks on from a check with nothing but preloads between, exactly k intervals have passed |
| KeepAliveClock.Station.AdjustTxrxTime | drivers/ath6kl/ap.c:21-53 | the estimate after a sample is the one the lemmas below speak of |
| KeepAliveClock.Station.UpdateCheck | drivers/ath6kl/ap.c:55-87 | removal exactly when silence has reached the remove time, polling exactly when it has reached the interval but not that, neither on a base sample |
| KeepAliveClock.LagsOneUnitPerWrap | drivers/ath6kl/ap.c:28-34 | before clamping the estimate lags the true clock by exactly 1024 ms per wrap |
| KeepAliveClock.EstimateAdvances | drivers/ath6kl/ap.c:36-41 | the estimate never decreases and never passes now |
| KeepAliveClock.EstimateIsLeastClamp | drivers/ath6kl/ap.c:27-48 | the estimate in closed form: the least, over all readings, of host time plus what the target counted since |
| KeepAliveClock.NeverAhead | drivers/ath6kl/ap.c:27-48 | the estimate never runs ahead of the true target clock |
| Admission.ApAdmc.constructor | drivers/ath6kl/ap.c:999-1023 | the queue starts empty |
| Admission.ApAdmc.AssocReq | drivers/ath6kl/ap.c:1089-1130 | a request accepted by host and target and not too long joins the end of the queue, any other does not |
| Admission.ApAdmc.Timeout | drivers/ath6kl/ap.c:833-854 | unlinks and frees just the expired request |
| Admission.ApAdmc.Fetch | drivers/ath6kl/ap.c:910-942 | hands over the station's first request and leaves the rest in order |
| Admission.ApAdmc.Release | drivers/ath6kl/ap.c:1169-1192 | frees a fetched request |
| Admission.ApAdmc.Flush | drivers/ath6kl/ap.c:944-971 | empties the queue; with nothing fetched outstanding, every request ever queued has then been freed exactly once |
| Admission.AllIdsOnce | drivers/ath6kl/ap.c:870-890 | the identities given out are distinct |
| Admission.ApAdmc.FreedAtMostOnce | drivers/ath6kl/ap.c:833-971 | over every run no request is freed twice, nor while it is queued or in use |
| VifIndex.MapAfterAdd | drivers/ath6kl/cfg80211.c:7114 | clearing the new interface's bit keeps the map the complement of the indices in use |
| VifIndex.MapAfterDelete | drivers/ath6kl/cfg80211.c:7047 | setting the removed interface's bit keeps it so |
| VifIndex.Device.Bare | drivers/ath6kl/init.c:3181-3182 | a device without interfaces is consistent |
| VifIndex.Device.AtProbe | drivers/ath6kl/init.c:3181-3197 | so is the driver's own start, where the first interface goes uncounted |
| VifIndex.Device.IsValidIftype | drivers/ath6kl/cfg80211.c:641-713 | the free index found is the lowest of the type's range, or the highest on a dedicated device except for a concurrent access point |
| VifIndex.Device.FoundWhen | drivers/ath6kl/cfg80211.c:641-713 | when no index is found, range by range |
| VifIndex.Device.InterfaceAdd | drivers/ath6kl/cfg80211.c:7059-7125 | a failed registration changes nothing; success takes the index out of the map |
| VifIndex.Device.AddAt | drivers/ath6kl/cfg80211.c:3091-3097 | an interface made at a free index is counted once; a failed one changes nothing |
| VifIndex.AdhocKnownUnlink | drivers/ath6kl/cfg80211.c:7049-7050 | the ad hoc flag, cleared with the ad hoc interface, keeps telling whether one is live |
| VifIndex.Device.AddIface | drivers/ath6kl/cfg80211.c:3061-3101 | adds at an unused index of the type's range or changes nothing, with the exact condition for refusal; nothing is added beside a live ad hoc interface |
| VifIndex.Device.DelIface | drivers/ath6kl/cfg80211.c:3104-3136 | removes the interface and frees its index; distinctness, map, counter and the P2P range stay consistent |
| VifIndex.Device.AtMostMax | drivers/ath6kl/cfg80211.c:3079-3083 | never more live interfaces than the maximum |
| VifIndex.Device.CounterMeaning | drivers/ath6kl/cfg80211.c:3079-3097 | the counter is the number of live interfaces if and only if none went uncounted; from the driver's start its limit is never reached |
| Ies.ParseSerialized | drivers/ath6kl/cfg80211.c:575-586 | parsing finds exactly the serialised elements in front of anything incomplete |
| Ies.SerializeParsed | drivers/ath6kl/cfg80211.c:575-586 | what parsing finds is the longest well-formed prefix of the buffer |
| Ies.FilterTwice | drivers/ath6kl/cfg80211.c:586-608 | filtering twice is filtering once |
| Ies.FilteredText | drivers/ath6kl/cfg80211.c:586-608 | a filtered buffer is well-formed, holds just the kept elements in order, and is a fixed point of the filter |
| Ies.HasWpsMeans | drivers/ath6kl/cfg80211.c:603-604 | the flag computed element by element is the existence of a WPS element |
| Ies.SetAssocReqIes | drivers/ath6kl/cfg80211.c:562-616 | the output is parse, filter, serialise; the WPS flag is set exactly when the well-formed prefix holds a WPS element; all reads are inside the buffer |
| Ies.SetProbeReqIes | drivers/ath6kl/cfg80211.c:1891-1935 | the output is parse, filter, serialise |
| Ies.SetApProbeRespIes | drivers/ath6kl/cfg80211.c:4557-4592 | the output is parse, filter, serialise |
| Ies.AssocReqHidesSecurity | drivers/ath6kl/cfg80211.c:586-592 | no RSN or WPA element survives the association filter |
| Ies.AssocReqSurvivors | drivers/ath6kl/cfg80211.c:586-601 | by identifier and vendor bytes, exactly which elements are left for an association request |
| Ies.ProbeReqSurvivors | drivers/ath6kl/cfg80211.c:1909-1921 | the same for a probe request |
| Ies.ProbeRespSurvivors | drivers/ath6kl/cfg80211.c:4576-4586 | the same for a probe response |
| Rsn.ReadInverts | apps/iw-3.0/scan.c:365-516 | every field of every well-formed element is recovered with no bytes left over |
| Rsn.PrintRsnIe | apps/iw-3.0/scan.c:365-516 | the printer, on any body of at least two bytes, is the decoder that `ReadInverts` speaks of |
| Rsn.BadPairwiseCount | apps/iw-3.0/scan.c:394-413 | a pairwise count beyond the element: what precedes it is shown and the rest is left over, but a single byte is ignored |
| Rsn.BadAkmCount | apps/iw-3.0/scan.c:415-434 | the same for key-management suites |
| Rsn.BadPmkidCount | apps/iw-3.0/scan.c:485-496 | the same for key identifiers, where a single byte is left over |
| Rsn.LeftoverAtEnd | apps/iw-3.0/scan.c:485-515 | four bytes behind the key identifiers are the management suite, and all further ones are left over |
| Rsn.CapInBody | drivers/ath6kl/cfg80211.c:4694-4722 | the driver's offsets reach the capabilities field of a body with the given counts |
| Rsn.CapOfElement | drivers/ath6kl/cfg80211.c:4700-4720 | what the driver takes from every well-formed element with a capabilities field: the field, or none if the body has at most 18 bytes |
| Rsn.SetRsnCap | drivers/ath6kl/cfg80211.c:4682-4734 | the word sent is that of the first RSN element of the buffer, unless it is 0xffff or asking for the present one fails |
| Rsn.FirstRsnAfter | drivers/ath6kl/cfg80211.c:4694-4698 | other elements before it do not hide the RSN element |
| Rsn.ReadersAgree | drivers/ath6kl/cfg80211.c:4705-4720 | printer and driver take the same capabilities from a well-formed element if and only if its body is longer than 18 bytes or the field is 0xffff |
| Rsn.ShortElementPassedOver | drivers/ath6kl/cfg80211.c:4706-4707 | a well-formed element of 12 bytes whose capabilities the printer shows and the driver passes over |
| Rsn.OneSuiteEachIsLongEnough | drivers/ath6kl/cfg80211.c:4700-4707 | one pairwise and one key-management suite make it long enough |
| Rsn.DriverTakesShownCap | drivers/ath6kl/cfg80211.c:4694-4731 | in a whole buffer the driver configures the capabilities the printer shows if and only if the body is longer than 18 bytes and the field is not 0xffff; otherwise it configures nothing |
| Rsn.NoRsnNoCap | drivers/ath6kl/cfg80211.c:4688-4731 | a buffer without an RSN element configures nothing |
| Scan.StepKeepsOk | drivers/ath6kl/cfg80211.c:2270-2318 | every handler keeps: answered plus pending is accepted, pending implies SCANNING, SCANNING without one belongs to a waiting recommended-channel scan |
| Scan.RunKeepsOk | drivers/ath6kl/cfg80211.c:2096-2411 | so does every interleaving on all interfaces |
| Scan.EveryRunAnswersOnce | drivers/ath6kl/cfg80211.c:2384-2410 | over every interleaving each accepted request is answered exactly once, in order, but for the pending one |
| Scan.RequestRecorded | drivers/ath6kl/cfg80211.c:2270-2318 | a request is pending and marked exactly when it starts, the semaphore is free and no user's scan is pending |
| Scan.CompletionAnswers | drivers/ath6kl/cfg80211.c:2384-2410 | a completion answers the pending user's scan and leaves nothing pending or marked |
| Scan.OtherCompletion | drivers/ath6kl/cfg80211.c:2384-2410 | any other completion wakes a waiting update, unless the coexistence code takes it, and answers nobody |
| Scan.AbortAnswers | drivers/ath6kl/cfg80211.c:1830-1840 | timer, disconnect event, clean-up and stop answer the pending user's scan |
| Scan.EapolAnswersAll | drivers/ath6kl/txrx.c:3421-3433 | an EAPOL frame answers the pending user's scan of every interface and leaves idle ones alone |
| Scan.CoexistenceTakes | drivers/ath6kl/htcoex.c:150-157 | the coexistence timer takes scan_req exactly when nothing is pending |
| Scan.UpdateWaitsAndEnds | drivers/ath6kl/ap.c:1359-1432 | the update waits exactly when the semaphore is free and nobody scans, and gives back semaphore and bits when woken, timed out or interrupted |
| Scan.NoStaleScanning | drivers/ath6kl/cfg80211.c:2270-2274 | SCANNING is never left behind: without a pending request the next one is accepted unless the recommended-channel scan holds the semaphore |
| Scan.UnmarkedIsCoexistence | drivers/ath6kl/cfg80211.c:2270-2318 | over every interleaving, unless a recommended-channel scan waits on the interface, scan_req is set without SCANNING if and only if the scan is the coexistence code's own |
| Scan.CoexistenceScansUnmarked | drivers/ath6kl/htcoex.c:150-157 | such a run, in which a user request replaces the coexistence scan |
| Scan.Device.CfgScan | drivers/ath6kl/cfg80211.c:2096-2335 | the handler is its step, and returns 0 exactly when the request is accepted |
| Scan.Device.CompleteEvent | drivers/ath6kl/main.c:1559-1561 | the completion is the coexistence code's or wakes the waiting update and answers the owner |
| Scan.Device.CfgCompleteEvent | drivers/ath6kl/cfg80211.c:2356-2411 | the completion step of one interface |
| Scan.Device.AbortPending | drivers/ath6kl/cfg80211.c:1830-1840 | scan timer, disconnect event and clean-up abort a pending scan and nothing else |
| Scan.Device.CfgStop | drivers/ath6kl/cfg80211.c:6343-6344 | stopping completes a scan if SCANNING is set |
| Scan.Device.EapolPreempt | drivers/ath6kl/txrx.c:3421-3433 | aborts the pending scans of all interfaces |
| Scan.Device.CoexStart | drivers/ath6kl/htcoex.c:112-165 | occupies scan_req only when nothing is pending |
| Scan.Device.RcUpdateBegin | drivers/ath6kl/ap.c:1334-1406 | goes to sleep holding the semaphore exactly when no interface is scanning and the command is sent |
| Scan.Device.RcUpdateResume | drivers/ath6kl/ap.c:1404-1432 | clears both scan bits and gives the semaphore back, woken, timed out or interrupted |
| Sme.StepKeepsResults | drivers/ath6kl/cfg80211.c:1773-1783 | no event lets connect results, with one to come while connecting, exceed connect calls |
| Sme.DisconnectsBoundedWhen | drivers/ath6kl/cfg80211.c:6310-6323 | a run from the start keeps disconnections, with one to come while connected, within successes if and only if it stops an idle interface no more often than it leaves a connection silently |
| Sme.StopBreaksBound | drivers/ath6kl/cfg80211.c:6316-6322 | a single stop breaks that bound |
| Sme.ReportsConserved | drivers/ath6kl/cfg80211.c:1131-1803 | over every run, stops included, an exact account: each connect call has ended in one result, is open, or was overtaken by another call; each success or idle stop has ended in one disconnection, stands, or was overtaken |
| Sme.EveryRunConserves | drivers/ath6kl/cfg80211.c:1131-1803 | the same account from the start of an interface |
| Sme.ReportsBounded | drivers/ath6kl/cfg80211.c:1131-1803 | both bounds over every run, the second without stops |
| Sme.OnlyOwnCommandReports | drivers/ath6kl/cfg80211.c:1761-1769 | over every run, disconnect events whose reason is not the host's own command might as well not have come: cfg80211 is told the same outcomes in the same order without them |
| Sme.FailureReportsReason | drivers/ath6kl/cfg80211.c:1761-1783 | however many such events precede it, a failed connection ends in one result, with the status of the last of their reasons |
| Sme.ConnectionLifecycle | drivers/ath6kl/cfg80211.c:1159-1794 | from any state: a call leads to connecting, one connect event to one success, and each kind of end to one disconnection |
| Sme.AttemptEnds | drivers/ath6kl/main.c:2165-2179 | an attempt that is ended reports one failure; refused calls and ends that find nothing report nothing |
| Sme.Vif.constructor | drivers/ath6kl/cfg80211.c:7115 | a new interface is disconnected, with a balanced account |
| Sme.Vif.CfgConnect | drivers/ath6kl/cfg80211.c:1131-1345 | keeps the account of all calls and reports (`Vif.Valid`, in every handler); a call given up after the state changed leaves it Connecting |
| Sme.Vif.CfgConnectEvent | drivers/ath6kl/cfg80211.c:1526-1632 | keeps the account; one successful result, only while connecting |
| Sme.Vif.CfgDisconnect | drivers/ath6kl/cfg80211.c:1634-1695 | keeps the account; changes the state without a report |
| Sme.Vif.CfgDisconnectEvent | drivers/ath6kl/cfg80211.c:1697-1803 | keeps the account; reports by state once the reason is the host's own command, else only tells the target to stop |
| Sme.Vif.CloseIface | drivers/ath6kl/main.c:2158-2191 | keeps the account; ends a connection or an attempt with one report |
| Sme.Vif.CfgStop | drivers/ath6kl/cfg80211.c:6298-6330 | keeps the account, in which an idle stop counts as a disconnection of its own |

## Assumptions

- The target is a byte store of 2^32 addresses that carries out the frames it receives; a mailbox
  transfer that fails does not reach it. The outcomes of transfers are an arbitrary script (`link`).
- The host stores words in little-endian order.
- The firmware compares packet and pattern under the byte mask from the first byte on, and keeps its
  access-control list by slot number. A policy command may or may not clear that list; both are
  covered.
- `unsigned long` has 64 bits where `iw` runs, and the locale's spaces are those of C.
- The values of error codes, element identifiers and nl80211 policies come from the kernel headers.
- One jiffy is a millisecond, and the jiffies counter does not wrap; intervals of 2^31 ms and more are
  taken as they are, where the kernel's conversion takes them for infinite.
- A pending timer fires exactly at its expiry, or at once if that has passed
  (`KeepAlive.ApKeepAlive.Elapse`). Every exact time of the keep-alive checks rests on this.
- Handlers run one at a time, except that the recommended-channel update is two steps with anything
  in between, and the audio reader may run between any two phases of the producer.
- The coexistence scan's own request is not one cfg80211 made, so a `cfg80211_scan_done` for it is not
  counted as an answer.

## Left out

- Bmi.Host.constructor: transfer sizes of 0xfff4 and more are not modelled, because the driver's 16-bit size arithmetic wraps there.
- Bmi.Host.BmiWrite: a transfer size of 12 bytes or less is not modelled, because its loop then makes no progress or subtracts below zero.
- Bmi.Host.LzData: a transfer size of 8 bytes or less is not modelled, for the same reason.
- Bmi.Host.FastDownload: the same sizes are not modelled as for LzData.
- RegDomain.SetRd: transfer sizes below 16 are not modelled, because a word is then sent in pieces whose padding may run past it.
- RegDomain.PatchBoard: the same sizes are not modelled.
- Bmi.Host.OneShot: the values read back by EXECUTE and READ_SOC_REGISTER are not modelled, because they come from the target's registers.
- `ath6kl_bmi_get_target_info` is not modelled: its answer describes the device and feeds none of the properties.
- WowPattern.ParseHexMask: texts with more tokens than the buffers hold are not modelled; `TokensFit` shows they have empty tokens. Calls without a mask are not modelled.
- WowPattern.ConfigurePattern: patterns longer than 64 bytes are not modelled, because the driver's mask has no more room; the keyword branches of the command line are not modelled either.
- AudioRing.RxRing.constructor: a headroom below 14 is not modelled, because stores then overwrite descriptors; `StoreStaysBehindDescriptor` gives the exact bound.
- AudioRing.RxRing.RxFill: the announced payload size is not cut when the frame is, as in the source; that a reader may then look past its slot is outside the model.
- AudioRing.SdaTxFun: the writer of the send buffer is not modelled as a concurrent party; slots change only when they are released.
- KeepAlive.ApKeepAlive.Fire: the walk over the stations is not modelled here; what a check does with one station is `KeepAliveClock.Station.UpdateCheck`.
- Admission.ApAdmc.Fetch: a station missing from a non-empty queue is not modelled, because the walk then ends at the list head and unlinks memory that is not a request (`ap.c:921-941`).
- Admission.ApAdmc.Timeout: requests are identified by a number instead of an address, so reuse of freed memory is not captured.
- VifIndex.Device.AtProbe: the fixed map of `p2p_compat` devices (`init.c:3184-3185`) is not modelled; nor is changing the type of a live interface.
- Rsn.SetRsnCap: elements that make the driver read past the buffer are not modelled; `ReadersAgree` shows that a well-formed element with a capabilities field never does.
- Rsn.PrintRsnIe: names of suites and capability bits are not modelled, only the fields they are printed from.
- Scan.Device.CfgScan: the order of the early refusals and their error codes is folded into one outcome, because none of them touches the scan state.
- Sme.Vif.CfgConnectEvent: ad hoc joins and roaming indications are not counted, because they are reported by other calls.
- Sme.DisconnectsBoundedWhen: the disconnection the scan timer reports when CE_2_SUPPORT is defined (`cfg80211.c:1859-1861`) is not counted, because none of the driver's headers or makefiles defines that option.
- Sme.Vif.CfgDisconnect: the wait for the disconnect event is not modelled, because nothing changes after it.
- The state machine of remain-on-channel, the regulatory and P2P code, automatic channel selection, suspend and resume, diagnostics, netlink messages, printing of other elements and memory-allocation failures are not modelled.
