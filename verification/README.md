# lwhtip: a verified model of its TLV codec, tables and frame assembly

lwhtip announces a layer-2 switch's forwarding table in LLDP frames (TTC JJ-300.00, HTIP). This project
models the pipeline from the kernel's forwarding entries to the bytes of the frames sent, and proves what a
receiver of those frames can rely on.

| file | what it models |
|---|---|
| `Common.dfy` | bytes, Ethernet addresses, writes into a caller's buffer (`Splice`) |
| `TlvHeader.dfy` | the 7-bit type and 9-bit length, with the committed and the nine-bit way to read the length |
| `Tlv.dfy` | streams of TLVs, the `print_tlvs` walk, parsing |
| `LinkInfo.dfy` | HTIP bodies, splitting a MAC list over TLVs, the readers, a receiver that joins fragments again |
| `TlvWriter.dfy` | the `create_*` encoders, writing in place |
| `Positions.dfy` | increasing positions, how the results spell out a filter that keeps order |
| `Fdb.dfy` | the forwarding table: life cycle, loading, queries |
| `IfInfo.dfy` | the interface table: life cycle, setters, scanning |
| `Htip.dfy` | `send_htip_device_info` and the three passes of `send_htip_device_link_info` |
| `HtipProofs.dfy` | whole-frame parsing, the end-to-end result, size bounds |
| `Switch.dfy` | the daemon's rounds and loop, and the strings it announces |
| `Meaning.dfy` | the daemon's results from the system's answers straight to frames and reports |
| `PayloadLimit.dfy` | how long frames get, exactly when all fit 1500 bytes, readings that do not fit |

Main results: `Meaning.EveryFrameSays` and, on tables, `HtipProofs.EndToEnd` (every frame the daemon ever sends
says about each port exactly what the kernel's entries say), `Meaning.RoundSends` (which frames a round sends, to
and from which addresses), `Meaning.InterfacesRead` (which address records become which interfaces),
`Meaning.ForwardedHolds` (which kernel entries the table holds), `LinkInfo.SectionRoundTrip` (the section is
self-delimiting), `Tlv.ParseEncoded` and `Tlv.EncodeParsed` (parsing and encoding are inverse, exactly while
lengths fit), `PayloadLimit.SendableExactly` (exactly when all frames of a call fit), `Htip.SizingExact`,
`Fdb.EveryRunOk`, `Fdb.LoadIsDeduplication`, `Fdb.PortsPartition`, `Switch.Round` (a round does the same from any
state earlier rounds leave) and `Switch.Daemon`.

The statements in `Meaning.dfy`, and those about bytes (`OnWire`, `Bytes`), use the fields of the system's answers
and plain numbers; they do not go through the functions that the methods are proved against.

Every lemma turns automatic induction off; where a proof is by induction, its body says how.

## Where the code departs from its documentation

The model does what the code does.

- The length reader shifts the top bit by 7 where the writer stores bit 8. Both readers are modelled
  (`Reader`). `HtipProofs.LinkFrameParses` says exactly which frames each one recovers: with the committed
  reader no link may have more than 41 addresses.
- A positive multiple of 83 addresses gets an empty last fragment (`LinkInfo.EmptyLastFragment`). It makes
  every link end in a fragment that is not full, which is why a receiver can tell links apart.
- Interface type, port number, device string length and address count are stored modulo 256. Reports are
  stated modulo 256 for the first two; for the others lemmas say exactly when nothing is lost.
- The length predictor is right for all counts but negative ones (`LinkInfo.PredictionExact`).
- `add_fdb_entry` checks the array's capacity, not the size given to `malloc_fdb_entry`
  (`Fdb.ConfiguredSizeBounds`: the configured size is a bound only when it is 256).
- The time-to-live encoder refuses 65535, which its message calls valid, after writing the header.
- `malloc_ifinfo_list(-1)` passes the size check, sets the count to 0 and then fails (`IfTable.Refused`).
- Adding to a table that was never allocated writes to slot -1, in front of the array. `Fdb.AddInBounds`: the
  slot is inside the array exactly when the table is allocated. So `Add` requires an allocated table, and
  `ReadFdb` one when the file holds an entry; the only caller in the repository allocates first.
- The payload of 1500 bytes is not checked against what is written into it. `Htip.Sendable` is what the writes
  need, and the sending methods require it. `PayloadLimit.SendableExactly` says when it holds, in terms of the
  strings and the sized section: names that end inside their field, and 64 bytes plus name, strings and trimmed
  section at most 1500. `PayloadLimit.RoundMayNotFit` gives readings for which it fails whatever the device is
  called: one interface and 255 remote entries on its port need 1574 bytes of section. Device frames with the
  documented string limits always fit (`PayloadLimit.DocumentedDeviceFits`); `HtipProofs.SendableWhen` and
  `Switch.RoundSendableWhen` are simple sufficient bounds.
- The daemon passes the size of a pointer, 8 on a 64-bit system, as the length of three of its strings
  (src/bin/l2switch.c:155-158). `Switch.DaemonDevice` is the device it announces: a string arrives whole
  exactly when it has 8 bytes (`Switch.AnnouncedWhole`), longer ones are cut, and behind shorter ones follow
  the NUL and whatever memory holds, which is an input here. The results hold for every device, hence for it.

## Readings of the environment

- System answers are inputs: address records, interface types, descriptors, the bridge's forwarding file,
  the bridge address, and for each transmission whether it is accepted. Sent frames are a list.
- `print_tlvs` reads a two-byte header even when one byte is left; `tail` is the byte that follows.
- IFNAMSIZ is 16 and INET6_ADDRSTRLEN is 46, from the system headers, which are not part of this model. The
  kernel's entry structure is not part of it either; its port number may be any 16-bit number here.
- The `macaddrs` array holds addresses, where the C array holds pointers into a table that does not change
  while they are used.

## Model

| member | source | states |
|---|---|---|
| Common.EtherAddrCmp | src/lib/datalink.c:418-422 | six byte comparisons decide equality of addresses |
| Common.SpliceAppend | src/lib/tlv.c:351-362 | a write at p followed by one right behind it is one write of both: appending preserves all earlier TLVs |
| TlvHeader.HeaderIsBigEndianWord | src/include/tlv.h:29-41 | for lengths up to 511 the wire bytes are the big-endian number type * 512 + length |
| TlvHeader.PackUnpack | src/include/tlv.h:29-41 | packing and unpacking headers are inverse on all headers and all byte pairs |
| TlvHeader.ReadBackLength | src/lib/tlv.c:27-36 | what each reader returns for every stored length; it is that length exactly below 256 (committed) or 512 (nine bits) |
| TlvHeader.ReadersAgree | src/lib/tlv.c:27-30 | the committed and the nine-bit reader agree exactly when the top length bit is clear |
| Tlv.PrintTlvs | src/lib/tlv.c:38-50 | the pointer loop visits exactly the headers of the walk |
| Tlv.WalkTiles | src/lib/tlv.c:38-50 | on any bytes the visits start at the front, each begins where the last ended, only the final one reaches the end, and they number at most half the length rounded up |
| Tlv.WalkReads | src/lib/tlv.c:27-50 | every visit's type and length are the upper seven bits, the lowest bit worth 128 or 256, and the byte behind, which at the buffer's end lies outside |
| Tlv.ParseEncoded | src/lib/tlv.c:38-50 | a written stream is read back unchanged if and only if every body is shorter than the reader's limit |
| Tlv.EncodeParsed | src/lib/tlv.c:38-50 | with nine bits, what parses encodes back to exactly the bytes it came from |
| LinkInfo.FragmentConstants | src/lib/tlv.c:485-485 | 83 addresses per TLV, eleven bytes of headers, 507 bytes of body at most |
| LinkInfo.DeviceInfoBytes | src/lib/tlv.c:396-436 | the bytes of a device TLV for every length: type 127, nine length bits, OUI e0-27-1a, subtype 1, identifier, length byte, text |
| LinkInfo.LinkFragmentBytes | src/lib/tlv.c:495-519 | the bytes of a fragment: type 127, OUI, subtype 2, type and port behind a 1 each, the count, the addresses |
| LinkInfo.FlattenAt | src/lib/tlv.c:509-516 | byte j of address i lies at 6 * i + j |
| LinkInfo.ChunkAt | src/lib/tlv.c:485-515 | the loop's quotient and remainder indexing picks exactly the greedy chunks, all indices in range |
| LinkInfo.ConcatChunks | src/lib/tlv.c:478-525 | splitting loses, repeats and moves no address |
| LinkInfo.ChunkSizes | src/lib/tlv.c:496-499 | every fragment but the last carries 83 addresses, the last the remainder |
| LinkInfo.FragmentCountMinimal | src/lib/tlv.c:487-490 | no cut into at most 83 needs fewer fragments, except for one more at positive multiples of 83 |
| LinkInfo.EmptyLastFragment | src/lib/tlv.c:487-490 | the last fragment is superfluous exactly at positive multiples of 83 |
| LinkInfo.PredictionExact | src/lib/tlv.c:549-560 | predicted and written length agree exactly for counts that are not negative |
| LinkInfo.NegativeCountBytes | src/lib/tlv.c:487-519 | a negative count writes one header with its low bits and no address |
| LinkInfo.PrintHtipLinkInfo | src/lib/tlv.c:220-237 | the printing loop reads the header fields and the counted addresses of the fragment |
| LinkInfo.ReadHtipMeaning | src/lib/tlv.c:180-249 | what any body is read as, from its bytes: nothing for a foreign OUI or an unknown subtype, else the fields and addresses at their places, while inside the body |
| LinkInfo.DeviceInfoRoundTrip | src/lib/tlv.c:239-249 | device information is read back as written exactly when it has at most 255 bytes |
| LinkInfo.LinkInfoRoundTrip | src/lib/tlv.c:220-237 | a fragment is read back with iftype and port modulo 256 and its addresses exactly when it has at most 255 |
| LinkInfo.LinkBytesRoundTrip | src/lib/tlv.c:478-525 | the bytes of one call, parsed, are fragments that all carry the call's type and port, whose addresses are the greedy chunks and joined the list given |
| LinkInfo.SectionRoundTrip | src/lib/tlv.c:478-525 | every fragment carries its link's type and port, and from the fragments of any list of links a receiver that joins only equal type and port recovers all links, in order, with all addresses |
| LinkInfo.LinkFits | src/lib/tlv.c:485-501 | all fragments fit nine length bits; they all fit the committed reader exactly up to 41 addresses |
| TlvWriter.HeaderInPlace | src/lib/tlv.c:278-280 | setting type and length of a header in the buffer leaves nothing of the bytes there |
| TlvWriter.CreateEndOfLldpduTlv | src/lib/tlv.c:274-283 | writes the empty End TLV, two bytes, nothing else |
| TlvWriter.CreateChassisIdTlv | src/lib/tlv.c:285-300 | writes exactly the Chassis ID TLV at p and returns its length |
| TlvWriter.CreatePortIdTlv | src/lib/tlv.c:302-317 | writes exactly the Port ID TLV at p and returns its length |
| TlvWriter.CreateTtlTlv | src/lib/tlv.c:319-337 | writes the TLV in network order; for 65535 writes the header alone and returns -1 |
| TlvWriter.CreatePortDescriptionTlv | src/lib/tlv.c:339-349 | writes exactly the Port Description TLV at p and returns its length |
| TlvWriter.CreateLldpTlv | src/lib/tlv.c:351-362 | writes the four LLDP TLVs one after the other, in as many bytes as predicted |
| TlvWriter.CreateTlvHeader | src/lib/tlv.c:372-381 | writes the organizationally specific header with the length's low nine bits |
| TlvWriter.CreateHtipTlvHeader | src/lib/tlv.c:383-394 | writes the OUI and the subtype |
| TlvWriter.CreateHtipDeviceInfoTlv | src/lib/tlv.c:396-436 | writes the device TLV whatever its length; only messages depend on the limits |
| TlvWriter.CreateBasicHtipDeviceInfoTlv | src/lib/tlv.c:438-465 | writes category, model name, manufacturer code, model number, in this order |
| TlvWriter.CreateBasicHtipLinkInfoTlv | src/lib/tlv.c:527-540 | copies the given number of section bytes |
| TlvWriter.CreateHtipLinkInfoTlv | src/lib/tlv.c:478-525 | the fragmenting loops write exactly the greedy fragmentation of the first num addresses, also for counts below one |
| TlvWriter.LldpLength | src/lib/tlv.c:364-370 | the LLDP length predictor gives the written length |
| TlvWriter.LldpBytes | src/lib/tlv.c:285-362 | the bytes of the four LLDP TLVs |
| TlvWriter.TtlBytes | src/lib/tlv.c:319-337 | every time to live is stored in network order |
| TlvWriter.DeviceBytes | src/lib/tlv.c:438-465 | the bytes of the four device TLVs, identifiers 1, 3, 2, 4 |
| TlvWriter.DeviceFrameLength | src/lib/tlv.c:467-476 | the device-frame length predictor gives the length of LLDP, device and End TLVs |
| Fdb.JiffiesExact | src/lib/fdb.c:212-218 | seconds and rest make up the microseconds modulo 2^64, hence exactly the timer while they fit 64 bits; the rest is below a second |
| Fdb.EveryRunOk | src/lib/fdb.c:98-153 | every run of malloc, add, free and load that writes inside the array keeps at most 256 entries with pairwise different (address, port) |
| Fdb.AddInBounds | src/lib/fdb.c:129-153 | the slot an add writes to is inside the array exactly when the table is allocated, and then right behind the entries; otherwise it is slot -1 |
| Fdb.Copied | src/lib/fdb.c:222-229 | an entry keeps its six address bytes in order, its port and its local mark |
| Fdb.Readable | src/lib/fdb.c:245-291 | all entries of a file of at most 256 are read, else its first 256 |
| Fdb.AddAllContinues | src/lib/fdb.c:288-298 | adding to a table keeps its entries in front and then the first entry of each new key, up to 256 |
| Fdb.DistinctPairwise | src/lib/fdb.c:155-169 | the invariant means that no two entries share address and port |
| Fdb.FirstOccurrencesPositions | src/lib/fdb.c:290-298 | the deduplicated list picks, in increasing order, exactly the positions whose key has not occurred before |
| Fdb.FirstOccurrencesDistinct | src/lib/fdb.c:290-298 | no two entries of the deduplicated list share address and port |
| Fdb.LoadIsDeduplication | src/lib/fdb.c:303-322 | loading yields exactly that list, whatever was read, and never meets a full table |
| Fdb.ConfiguredSizeBounds | src/lib/fdb.c:129-137 | the configured size bounds the table exactly when it is 256 |
| Fdb.PortOfFirstLocal | src/lib/fdb.c:171-183 | the first local entry of an address decides its port |
| Fdb.PortOfNone | src/lib/fdb.c:171-183 | without a local entry the port is the invalid one |
| Fdb.PortIsExact | src/lib/fdb.c:171-183 | the port found is exactly the valid port that the first entry with this address and local mark 1 names |
| Fdb.RemoteEntriesPositions | src/lib/fdb.c:195-209 | the remote query picks, in increasing order, exactly the positions of the non-local entries of the port |
| Fdb.RemoteMacsHeard | src/lib/fdb.c:195-209 | the addresses collected are the ones at exactly the positions with this port and local mark 0, in order, and no other list is |
| Fdb.RemoteOfExact | src/lib/fdb.c:185-193 | something is collected exactly when the address has a port and a remote entry is on it |
| Fdb.RemoteNoDuplicates | src/lib/fdb.c:195-209 | in a valid table no address is listed twice for one port |
| Fdb.PortsPartition | src/lib/fdb.c:195-209 | distinct ports never list an entry twice, and list all remote entries exactly when all their ports are asked for |
| Fdb.ForwardingTable.SetNum | src/lib/fdb.c:69-79 | accepts 0 to 256 |
| Fdb.ForwardingTable.SetSize | src/lib/fdb.c:86-96 | accepts 0 to 256 |
| Fdb.ForwardingTable.Malloc | src/lib/fdb.c:98-120 | an empty table of the size, or no change; zeroes everywhere |
| Fdb.ForwardingTable.Free | src/lib/fdb.c:122-127 | unallocated, zeroed |
| Fdb.ForwardingTable.Exist | src/lib/fdb.c:155-169 | true exactly when the key is in the table |
| Fdb.ForwardingTable.Add | src/lib/fdb.c:129-153 | appends exactly when the array has room and the key is new |
| Fdb.ForwardingTable.GetPortno | src/lib/fdb.c:171-183 | the port of the first local entry |
| Fdb.ForwardingTable.RemoteByPort | src/lib/fdb.c:195-209 | fills the array's front with the filter's addresses, leaves the rest, stays in bounds |
| Fdb.ForwardingTable.RemoteByMac | src/lib/fdb.c:185-193 | the same for the address's port, nothing when it has none |
| Fdb.ForwardingTable.ReadFdb | src/lib/fdb.c:232-301 | adds at most 256 kernel entries in order; -1 and no change when the file cannot be opened; needs an allocated table only when an entry is read |
| Fdb.ForwardingTable.LoadFdb | src/lib/fdb.c:303-322 | the loaded table, whatever the table held before |
| IfInfo.StrncmpIsStringEquality | src/lib/ifinfo.c:118-118 | comparing name fields compares the strings up to their NUL |
| IfInfo.PaddedTerminated | src/lib/ifinfo.c:394-394 | a copied name is terminated exactly when shorter than the field |
| IfInfo.PaddedField | src/lib/ifinfo.c:394-394 | all sixteen bytes of a copied name |
| IfInfo.PaddedString | src/lib/ifinfo.c:394-394 | the string read back is the name, cut to sixteen bytes |
| IfInfo.FindIsLookup | src/lib/ifinfo.c:111-123 | first-match search is lookup in the map from names to records |
| IfInfo.AppendIsInsert | src/lib/ifinfo.c:138-160 | adding a name inserts one key behind the others |
| IfInfo.UpdateIsOverwrite | src/lib/ifinfo.c:162-218 | a setter changes one key's record, no other and no order |
| IfInfo.DistinctNamesPairwise | src/lib/ifinfo.c:138-145 | the invariant means that no two records have the same name |
| IfInfo.EveryRunOk | src/lib/ifinfo.c:138-261 | every run of malloc, free, add and set keeps at most size <= 20 records with different names |
| IfInfo.AcceptedAll | src/lib/ifinfo.c:387-437 | a scan is stored completely exactly when it has at most 20 records with different names |
| IfInfo.AcceptedIs | src/lib/ifinfo.c:387-437 | the records stored have different names, and the first one refused has one of these names or finds the list full |
| IfInfo.ScannedPositions | src/lib/ifinfo.c:387-437 | a scan keeps, in order, exactly the usable records whose hardware address could be read, each with its address, name and address texts |
| IfInfo.OpenDescriptorsPositions | src/lib/ifinfo.c:279-292 | the descriptors closed are, in order, exactly those that are not negative |
| IfInfo.InterfaceTable.SetNum | src/lib/ifinfo.c:67-77 | accepts -1 to 20 |
| IfInfo.InterfaceTable.SetSize | src/lib/ifinfo.c:99-109 | accepts -1 to 20 |
| IfInfo.InterfaceTable.IncrementNum | src/lib/ifinfo.c:79-92 | one more exactly when below the size |
| IfInfo.InterfaceTable.Malloc | src/lib/ifinfo.c:220-245 | a fresh zeroed list, no change, or the refused state for -1 |
| IfInfo.InterfaceTable.Free | src/lib/ifinfo.c:247-261 | no list, invalid count and size |
| IfInfo.InterfaceTable.Search | src/lib/ifinfo.c:111-123 | the position of the first record of the name, or none |
| IfInfo.InterfaceTable.GetEmpty | src/lib/ifinfo.c:125-136 | the first unused slot, or none when full |
| IfInfo.InterfaceTable.SetIfname | src/lib/ifinfo.c:138-160 | appends a record with this name and zeroes exactly when the name is new and a slot is free |
| IfInfo.InterfaceTable.SetAddr | src/lib/ifinfo.c:162-175 | changes address and netmask of the named record only |
| IfInfo.InterfaceTable.SetHwaddr | src/lib/ifinfo.c:177-190 | changes the hardware address of the named record only |
| IfInfo.InterfaceTable.SetIftype | src/lib/ifinfo.c:192-204 | changes the type of the named record only |
| IfInfo.InterfaceTable.SetPortno | src/lib/ifinfo.c:206-218 | changes the port of the named record only |
| IfInfo.InterfaceTable.ReadIfinfo | src/lib/ifinfo.c:342-446 | stores the usable records up to the first refused one, in a new list |
| IfInfo.InterfaceTable.ReadNetType | src/lib/ifinfo.c:506-531 | types every record through its own name, up to the first name without a type |
| IfInfo.InterfaceTable.OpenNetif | src/lib/ifinfo.c:263-277 | every record gets its name's descriptor |
| IfInfo.InterfaceTable.CloseNetif | src/lib/ifinfo.c:279-292 | closes exactly the descriptors that are not negative, in list order, and releases the list |
| Htip.SizingExact | src/lib/htip.c:179-221 | the sizing pass exceeds what is written by exactly eleven bytes per interface without a port |
| Htip.SectionIsLinks | src/lib/htip.c:193-214 | filling interface by interface encodes the TLVs of all links with a port, in list order |
| Htip.SizeSection | src/lib/htip.c:179-184 | the first pass adds up the predictions |
| Htip.FillSection | src/lib/htip.c:193-214 | the second pass stays inside the buffer of the first and returns what it wrote |
| Htip.SendFrames | src/lib/htip.c:223-297 | the third pass sends, in list order, one frame per eligible interface up to the first refusal |
| Htip.SendDeviceLinkInfo | src/lib/htip.c:166-302 | the three passes and the trim send exactly these frames; 0 exactly when none is refused |
| Htip.SendDeviceInfo | src/lib/htip.c:27-84 | one device frame per open interface up to the first refusal |
| HtipProofs.LinkFrameParses | src/lib/htip.c:243-272 | which reader recovers a link frame: strings up to 505 bytes for nine bits; 249 and 41 addresses for the committed one |
| HtipProofs.DeviceFrameParses | src/lib/htip.c:52-66 | the same for device frames |
| HtipProofs.LinkFrameOrder | src/lib/htip.c:243-272 | the mandatory order of section 8.2 of IEEE 802.1AB-2009, with one empty End TLV at the end |
| HtipProofs.DeviceFrameFields | src/lib/htip.c:52-66 | a device frame has nine TLVs in the mandatory order, which say what the first eight of a link frame say, from the interface's own address |
| HtipProofs.FrameFields | src/lib/tlv.c:351-362 | what the eight TLVs in front of the section say, and when the device strings are recovered |
| HtipProofs.LinkFrameAnnounces | src/lib/htip.c:243-272 | parsing a link frame gives fragments that each carry their link's type and port, and joined the announced links and nothing else |
| HtipProofs.EndToEnd | src/lib/htip.c:166-302 | a sent frame is well ordered, each fragment carries its link's type and port, and it reports, in order, exactly the interfaces whose address a first local entry gives a valid port, with that port's remote addresses, each once, maybe none |
| HtipProofs.PayloadDetermines | src/lib/htip.c:243-272 | equal payloads announce equal links |
| HtipProofs.FramesPositions | src/lib/htip.c:223-236 | exactly one frame for each interface with a descriptor that is not negative and a remote entry on its port, in list order |
| HtipProofs.FrameLayout | src/lib/htip.c:245-288 | descriptor, name, broadcast destination, source and every byte of a frame around the section that all frames of a call share |
| HtipProofs.DeviceFrameLayout | src/lib/htip.c:52-71 | descriptor, name, broadcast destination, own source address and every byte of a device frame |
| HtipProofs.DeviceFramesPositions | src/lib/htip.c:39-46 | exactly one device frame for each interface with a descriptor that is not negative, in list order |
| HtipProofs.SizeBound | src/lib/htip.c:179-184 | with a port of its own for each interface, at most 256 addresses and 11 * (interfaces + 3) + 6 * remote entries bytes |
| HtipProofs.SendableWhen | src/lib/htip.c:238-272 | a simple bound on strings, interfaces and entries that is enough for all frames to fit 1500 bytes |
| PayloadLimit.LinkFrameLength | src/lib/htip.c:238-272 | a link frame is as long as 64 bytes, its name and strings, and the sized section less eleven bytes per interface without a port; it fits exactly when that is at most 1500 |
| PayloadLimit.SendableExactly | src/lib/htip.c:238-272 | a call's writes stay inside the payload if and only if the code has six bytes and each interface that gets a frame has a terminated name and a total of at most 1500 |
| PayloadLimit.DeviceSendableExactly | src/lib/htip.c:47-66 | the same for device frames |
| PayloadLimit.DocumentedDeviceFits | src/lib/htip.c:47-66 | within the documented limits of 255, 31 and 31 bytes device frames always fit |
| PayloadLimit.FullPortTooLong | src/lib/htip.c:238-272 | for one interface with 255 remote entries on its port the section alone has 1574 bytes, so no device's frame fits |
| Switch.ReadInterfaces | src/bin/l2switch.c:130-145 | the interface table after scan, types and descriptors, or how the round ends |
| Switch.Round | src/bin/l2switch.c:128-172 | from any state of both tables: the frames sent and the end are those of the round's readings, a complete round closes its open descriptors, and both tables end released unless the scan failed |
| Switch.Daemon | src/bin/l2switch.c:128-180 | the loop sends, round after round, exactly what each round's readings say, until a round fails |
| Switch.RoundEndToEnd | src/bin/l2switch.c:151-164 | every frame of a round tells, link by link with type and port, each port's first-occurrence kernel entries, each once, in order |
| Switch.EveryFrameTruthful | src/bin/l2switch.c:128-172 | every frame the loop ever sends belongs to a round before which all rounds went on, and tells that round's readings |
| Meaning.InterfacesRead | src/bin/l2switch.c:130-145 | the scan succeeds exactly with at most 20 usable records of different names; each interface then has its record's addresses and name and the type and descriptor of that name |
| Meaning.ForwardedHolds | src/bin/l2switch.c:148-153 | the table holds, in order, exactly the entries among the first 256 whose address and port no earlier one has, field by field |
| Meaning.UnreadyRound | src/bin/l2switch.c:130-153 | a round gets to sending exactly when interfaces and bridge could be read, and sends nothing otherwise |
| Meaning.RoundSends | src/bin/l2switch.c:154-164 | exactly one frame per open interface on whose port the kernel heard something, in order up to the first refusal, broadcast, from the bridge's address if it has one; the round goes on exactly when all were accepted |
| Meaning.EveryFrameSays | src/bin/l2switch.c:128-172 | every frame ever sent belongs to a round and reports exactly the interfaces the kernel's entries put on a port, with the addresses heard there, each once and in order |
| Switch.AnnouncedWhole | src/bin/l2switch.c:155-158 | a string announced with a fixed length arrives whole exactly when it has that length, is cut when longer, and is followed by foreign memory when shorter |
| Switch.DaemonDeviceSize | src/bin/l2switch.c:155-158 | which setting ends up in which string, with which length; the strings suit both readers and have 24 bytes besides the code |
| Switch.RoundSendableWhen | src/bin/l2switch.c:128-164 | simple conditions on the readings alone that are enough for a round to run |
| PayloadLimit.RoundSendableExactly | src/bin/l2switch.c:128-164 | the condition on the readings under which a round's writes stay inside the payload, both ways |
| PayloadLimit.DaemonRoundExactly | src/bin/l2switch.c:155-158 | for the daemon's own strings: exactly when name and trimmed section take at most 1412 bytes |
| PayloadLimit.RoundMayNotFit | src/bin/l2switch.c:128-164 | readings that reach sending and for which no device's frames fit |

## Left out

- Sockets, ioctls, sysfs and `getifaddrs`: their answers are inputs, and failures to close a socket are not modelled.
- The ioctl path of `read_fdb`: it cannot be reached after the earlier return.
- `send_htip_link_info` and its length predictor: no program calls them, and it sends a buffer it never fills.
- `hexdump`, printed text and messages: from the `print_*` functions only what they read is kept.
- Allocation failure, the Apple branches, `upnp.c`, `timer.c`, option and environment handling, signal handling.
- Overflow of 32-bit lengths: it would need buffers of over two gigabytes.
- Aliasing of `macaddrs` with the forwarding table: the array holds the addresses themselves.
- Ownership of the lists: memory that C leaks, such as a list allocated twice, is not tracked.
