# Real-time Edge tools: a verified model

This project models the self-contained programs of the Real-time Edge Yocto layer that carry
state, arithmetic or a protocol of their own, and proves what they keep:

- **Multicore fastboot entry tool** (`Bytes`, `Crc32`, `FastbootFormat`, `FastbootTable`,
  `FastbootTool`): a bounded table of core/address pairs, sorted, serialised little-endian behind
  a 40-byte header with a table-driven CRC-32 (section 8 of RFC 1952), read back, dumped, and laid
  over a reservation in a boot image.
- **DSA receive path over AF_XDP** (`DsaTag`, `XdpMeta`, `XdpAccounting`, `XskRing`,
  `XdpReceiver`, `XdpUmem`, `XdpRun`): two BPF programs and two applications that do one job in two
  ways. The tag is a VLAN tag (clause 9.6 of IEEE 802.1Q). The rings run on wrapping 32-bit indices
  and the packet buffers circulate between the application and the kernel.
- **prl, the pipe rate limiter** (`RateLimiter`): lines per aligned window of a monotonic clock.
- **bee file transfer** (`BeeTransfer`, `BeeNode`, `BeeCodec`): a stop-and-wait client and server
  over a radio whose FIFOs are reached cell by cell through packed 10-bit addresses.
- **nRF8001 setup** (`AciSetup`, `AciWire`): the setup dialogue and the bit-mirrored exchange
  below it.
- **Latency-bandwidth tester login and flow texts** (`LoginText`).
- **CANopen console** (`Console`): tokenizer in place, command table, dispatch.

Programs that update variables, tables, rings or buffers step by step are classes and methods
here, each proved against a function of the old state; the results about runs, round trips and
equivalences are lemmas about those functions.

## What the code does and its documentation does not say

- The entries file has a 40-byte header and 20-byte entries (the packed structs); the appendix of
  the tool's README gives 64 and 24 bytes.
- The 64-bit offset test of the embedder wraps around (`FastbootFormat.OffsetTestExact` says for
  which offsets, `FastbootFormat.OffsetWraps` gives one).
- Link-local addresses are announced as matched on three octets; the code compares four
  (`DsaTag.LinkLocalExact`, `DsaTag.PrefixMissed`).
- A tagged frame of 16 or 17 bytes is passed to the kernel after its addresses have been copied
  over the tag (`XdpMeta.PassKeepsFrame`, `XdpMeta.RuntIsDamaged`).
- prl's help text promises at most `count` lines in a time period; that holds for aligned windows
  and not for other periods (`RateLimiter.PromiseExact`).
- bee's write cursor moves by everything received so far, not by the frame just received, so for
  every file of more than 100 bytes the client writes outside the block it has allocated
  (`BeeTransfer.BlockExact`, `BeeTransfer.FileOf150`), and in files of more than 200 bytes it
  would leave gaps in any case (`BeeTransfer.GapsExact`). The transfer is proved for both cursors,
  `Cumulative` as written and `PerFrame` as needed.
- bee keeps names in 30 bytes on either side. A name of 30 bytes leaves the client no room for its
  terminator, a longer one the server none for itself (`BeeTransfer.NameOf30`,
  `BeeTransfer.NameOf31`). Sizes are kept in signed 32-bit integers to which 32 is added. All of
  this is in the condition under which a file arrives (`BeeTransfer.Good`). The client does not
  cut off an old file of the same name that is longer (`BeeTransfer.SavedFileExact`).
- A port, bandwidth or interval that reads as infinity in the tester's page comes back as zero, or
  as port 22 in a login, because JSON has no infinity (`LoginText.UnlimitedBecomesZero`,
  `LoginText.SettingKeptExact`).
- The setup routine reports success when the device declares the setup complete, whether or not
  all messages were sent (`AciSetup.SuccessExact`, `AciSetup.CompleteAtOnce`). A command response
  without a status counts as a success (`AciWire.MissingStatus`). While it reads a reply, the last
  message goes out again unmirrored (`AciWire.SecondExchange`).

## Assumptions

- `qsort` leaves a sorted permutation, ties in any order. Files are byte sequences shorter than
  2^63 bytes.
- A frame reaches the BPF program without metadata. `bpf_xdp_adjust_meta` turns the bytes just
  before the packet into metadata if the headroom has them. `bpf_xdp_adjust_head` takes the
  metadata along and fails if fewer than 14 bytes would remain. Both are methods of
  `XdpMeta.XdpBuffer`, with these contracts.
- The AF_XDP rings have 2048 slots and a UMEM frame 4096 bytes, libxdp's defaults. The kernel
  takes a buffer off the fill ring before it delivers a packet in it, and delivers it inside the
  frame it took: `KernelTake` and `KernelDeliver` in `XdpUmem.Do`. A peek may find fewer
  entries than there are, but none only if there are none.
- The clock of prl does not run backwards and its readings fit the signed 64-bit counter.
- One read of the server returns the whole file, and its base name is not empty. A base name of
  more than 255 bytes, which file systems do not allow, would be announced by its length modulo
  256 (`BeeTransfer.Announced`). The client can open the file it saves to, and one write takes all
  of it.
- The radio channel holds at most one message, may lose it, and neither duplicates nor invents
  messages. The radio drops the header-length byte and adds two check bytes to the length
  (`BeeCodec.OnAir`).
- Numbers and text convert as ECMAScript promises: the text of a number reads back as that number
  (`LoginText.Lawful`; `LoginText.WholeNumbersLawful` shows that this can be kept). JSON carries
  finite numbers and texts as they are and turns other numbers into null.

## Model

| member | source | states |
|---|---|---|
| Bytes.LERoundTrip | recipes-bsp/imx-mkimage/files/fastboot.patch:1158-1164 | a number that fits survives the little-endian conversion and back |
| Bytes.LEUnique | recipes-bsp/imx-mkimage/files/fastboot.patch:1565-1571 | reading octets and writing them again gives the same octets, so no two encodings mean the same number |
| Crc32.EightSteps | recipes-bsp/imx-mkimage/files/fastboot.patch:990-1005 | eight steps of the shift register are one lookup on the low octet combined with a shift of the rest |
| Crc32.AbsorbOctet | recipes-bsp/imx-mkimage/files/fastboot.patch:1021-1024 | absorbing the eight bits of an octet one at a time is one turn of the table-driven loop |
| Crc32.TableDrivenCrc | recipes-bsp/imx-mkimage/files/fastboot.patch:1013-1027 | on every octet string the table-driven checksum is the bit-serial reflected CRC-32 |
| Crc32.Residue | recipes-bsp/imx-mkimage/files/fastboot.patch:990-1027 | a message followed by the four octets of its checksum leaves the register at 0xDEBB20E3, whatever the message: the residue of this polynomial |
| Crc32.TopEntry | recipes-bsp/imx-mkimage/files/fastboot.patch:992-1003 | table entry 0x80 is the polynomial 0xEDB88320 |
| Crc32.CheckValue | recipes-bsp/imx-mkimage/files/fastboot.patch:1013-1027 | the checksum of the digits one to nine is 0xCBF43926 |
| Crc32.AbsorbDifference | recipes-bsp/imx-mkimage/files/fastboot.patch:1013-1027 | two registers drift apart exactly as one register does on the difference of the messages |
| Crc32.BurstNeverCancels | recipes-bsp/imx-mkimage/files/fastboot.patch:1013-1027 | a difference whose set bits lie within 32 places never brings the register back to zero |
| Crc32.BurstDetected | recipes-bsp/imx-mkimage/files/fastboot.patch:1013-1027 | any change confined to 32 consecutive message bits, at any bit position, changes the checksum |
| Crc32.FourOctetsDetected | recipes-bsp/imx-mkimage/files/fastboot.patch:1013-1027 | any change confined to four consecutive octets changes the checksum |
| FastbootFormat.HeaderRoundTrip | recipes-bsp/imx-mkimage/files/fastboot.patch:1172-1180 | a header written is read back field for field |
| FastbootFormat.HeaderUnique | recipes-bsp/imx-mkimage/files/fastboot.patch:1481-1488 | forty octets that were decoded encode to the same octets |
| FastbootFormat.EntryRoundTrip | recipes-bsp/imx-mkimage/files/fastboot.patch:1158-1164 | an entry written is read back with all four fields |
| FastbootFormat.EntriesRoundTrip | recipes-bsp/imx-mkimage/files/fastboot.patch:1158-1164 | the entry area decodes to the entries in order |
| FastbootFormat.EntriesUnique | recipes-bsp/imx-mkimage/files/fastboot.patch:1565-1571 | an entry area that was decoded encodes to the same octets |
| FastbootFormat.MagicOctets | recipes-bsp/imx-mkimage/files/fastboot.patch:1885 | the magic number is stored as the letters FSBT and as nothing else |
| FastbootFormat.FileLayout | recipes-bsp/imx-mkimage/files/fastboot.patch:1172-1205 | a written file octet by octet: letters, its own length, version one, count, 40, 20, the checksum of the entries, sixteen zeros, and at 40 + 20 i core, address, flags and reserved word of entry i |
| FastbootFormat.ReadBack | recipes-bsp/imx-mkimage/files/fastboot.patch:1451-1599 | every table of up to sixteen entries that is written is accepted and read back intact |
| FastbootFormat.ReadFileExact | recipes-bsp/imx-mkimage/files/fastboot.patch:1474-1574 | a file is accepted if and only if letters, length, the two sizes, a count of at most 16, room and checksum are right, and every entry is what its twenty octets say; version, reserved words and octets behind the entries play no part |
| FastbootFormat.AcceptedFileIsWritten | recipes-bsp/imx-mkimage/files/fastboot.patch:1490-1563 | an accepted file is one the writer could have written if and only if version, reserved words and length are the writer's and an empty table has checksum zero |
| FastbootFormat.DamagedEntriesRefused | recipes-bsp/imx-mkimage/files/fastboot.patch:1554-1563 | a good file whose entry area is damaged within 32 consecutive bits is refused for its checksum |
| FastbootFormat.DamagedOctetsRefused | recipes-bsp/imx-mkimage/files/fastboot.patch:1554-1563 | a good file changed in up to four consecutive octets of the entry area is refused for its checksum |
| FastbootFormat.DumpBack | recipes-bsp/imx-mkimage/files/fastboot.patch:1607-1781 | a written file that lies anywhere in an image is dumped entry for entry with a matching checksum |
| FastbootFormat.DumpFileExact | recipes-bsp/imx-mkimage/files/fastboot.patch:1624-1781 | when a dump goes through, what it shows of each entry, and when it says that the checksum matches, differs or is not looked at |
| FastbootFormat.DamagedEntriesShown | recipes-bsp/imx-mkimage/files/fastboot.patch:1747-1758 | entries damaged within 32 consecutive bits are dumped with a differing checksum |
| FastbootFormat.OffsetTestExact | recipes-bsp/imx-mkimage/files/fastboot.patch:1275-1280 | the tool's wrapping test agrees with what it is there to say, that magic and capacity lie inside the image, if and only if the 64-bit sum does not wrap to a place inside it |
| FastbootFormat.OffsetWraps | recipes-bsp/imx-mkimage/files/fastboot.patch:1275-1280 | an offset near 2^64 that passes the test for an image of one byte |
| FastbootFormat.OverflowExact | recipes-bsp/imx-mkimage/files/fastboot.patch:1275-1307 | the embedder reads outside a non-empty image exactly for the offsets where the two disagree |
| FastbootFormat.EmbedExact | recipes-bsp/imx-mkimage/files/fastboot.patch:1275-1408 | an embed goes through if and only if the letters FSBT stand at the offset, the file is not empty and fits the capacity, and the capacity fits the image; each refusal is given with its exact condition, and the result byte for byte |
| FastbootFormat.CapacityAfterBlob | recipes-bsp/imx-mkimage/files/fastboot.patch:1320-1326 | after embedding any file that is accepted, the capacity word is the file's second word as far as the file reaches and the old one beyond; a file of up to four bytes leaves it alone |
| FastbootFormat.CapacityCanGrow | recipes-bsp/imx-mkimage/files/fastboot.patch:1320-1326 | an accepted file of eight bytes after which the capacity word is larger than before |
| FastbootFormat.EmbedOnce | recipes-bsp/imx-mkimage/files/fastboot.patch:1305-1408 | after an embed the written file is found at the offset, the bytes around it are untouched, the capacity word is the file's length and no larger than before, a dump shows the entries, and embedding again is the identity |
| FastbootFormat.EmbedAfter | recipes-bsp/imx-mkimage/files/fastboot.patch:1320-1336 | a second table fits over a first if and only if it has no more entries |
| FastbootFormat.ChainGoesThrough | recipes-bsp/imx-mkimage/files/fastboot.patch:1275-1408 | a chain of embeds at one offset succeeds if and only if the first fits and the tables never grow |
| FastbootFormat.ChainOutcome | recipes-bsp/imx-mkimage/files/fastboot.patch:1245-1421 | after any chain that succeeds the image has its length and its bytes outside the first table's place, the capacity word has not grown, the last table is what a dump finds, and embedding that table again changes nothing |
| FastbootTable.AddAllAccepts | recipes-bsp/imx-mkimage/files/fastboot.patch:1093-1117 | a run of adds to a duplicate-free table is accepted if and only if no core repeats and sixteen slots suffice, and then appends in order |
| FastbootTable.AddAllFromEmpty | recipes-bsp/imx-mkimage/files/fastboot.patch:1062-1117 | from the empty table, exactly the runs naming at most 16 different cores are accepted; entry i then has the core and address of request i, and zero flags and reserved word |
| FastbootTable.SortedIsStrict | recipes-bsp/imx-mkimage/files/fastboot.patch:1032-1056 | without repeated cores every sorted permutation is strictly increasing |
| FastbootTable.SortedUnique | recipes-bsp/imx-mkimage/files/fastboot.patch:1032-1056 | two strictly sorted tables with the same contents are the same sequence |
| FastbootTable.CanonicalOutput | recipes-bsp/imx-mkimage/files/fastboot.patch:1093-1205 | naming the same cores in another order is accepted too and gives byte-identical files, however the sort treats ties |
| FastbootTable.ToolRun | recipes-bsp/imx-mkimage/files/fastboot.patch:2105-2197 | from accepted arguments to patched image: as many entries as requests, in strictly increasing core order, each request with its address and zeros for the rest; the file reads back as those entries, and so does a dump of the image |
| FastbootTool.BootEntryTable.InitCrc32Table | recipes-bsp/imx-mkimage/files/fastboot.patch:990-1005 | builds the table for every index and touches nothing else |
| FastbootTool.BootEntryTable.CalculateCrc32 | recipes-bsp/imx-mkimage/files/fastboot.patch:1013-1027 | returns the bit-serial CRC-32 whether or not the table was built before, and leaves it built |
| FastbootTool.BootEntryTable.Init | recipes-bsp/imx-mkimage/files/fastboot.patch:1062-1069 | empties the table |
| FastbootTool.BootEntryTable.IsCoreDuplicate | recipes-bsp/imx-mkimage/files/fastboot.patch:1076-1084 | true if and only if the core is in the table |
| FastbootTool.BootEntryTable.AddEntry | recipes-bsp/imx-mkimage/files/fastboot.patch:1093-1117 | appends a new core, or refuses a duplicate or a full table and changes nothing |
| FastbootTool.BootEntryTable.SortEntries | recipes-bsp/imx-mkimage/files/fastboot.patch:1048-1056 | leaves a sorted permutation of the table |
| FastbootTool.BootEntryTable.WriteFile | recipes-bsp/imx-mkimage/files/fastboot.patch:1135-1234 | emits exactly the file of the sorted table, which stays in memory |
| FastbootTool.BootEntryTable.EncodeTable | recipes-bsp/imx-mkimage/files/fastboot.patch:1158-1164 | the loop over the table yields the encoding of all entries |
| FastbootTool.BootEntryTable.ReadFile | recipes-bsp/imx-mkimage/files/fastboot.patch:1451-1599 | refines the validating read: the table becomes the file's entries, or the same error is returned and the table is unchanged |
| FastbootTool.BootEntryTable.StoreEntries | recipes-bsp/imx-mkimage/files/fastboot.patch:1565-1574 | the loop stores every decoded entry in order and sets the count |
| FastbootTool.BootEntryTable.DumpFile | recipes-bsp/imx-mkimage/files/fastboot.patch:1607-1781 | shows what the dump specification says, without touching the table |
| FastbootTool.BootEntryTable.EmbedEntries | recipes-bsp/imx-mkimage/files/fastboot.patch:1245-1421 | refines the embed specification, errors included |
| FastbootTool.BootEntryTable.Memcpy | recipes-bsp/imx-mkimage/files/fastboot.patch:1407-1408 | the copy in place replaces exactly the covered bytes |
| DsaTag.DecodeEncodedTci | recipes-extended/xdp-dsa-examples/files/xdp_dsa_meta.h:78-105 | every port, switch and priority is recovered from its TCI, whatever the ignored bits |
| DsaTag.DecodedTciIsEncoded | recipes-extended/xdp-dsa-examples/files/xdp_dsa_meta.h:78-105 | a TCI is accepted only if its reserved bits are set and it is the encoding of the fields it decodes to |
| DsaTag.LinkLocalExact | recipes-extended/xdp-dsa-examples/files/xdp_dsa_meta.c:51-75 | the link-local test is the announced three-octet match if and only if the fourth octet is zero or the prefix is absent |
| DsaTag.PrefixMissed | recipes-extended/xdp-dsa-examples/files/xdp_dsa_meta.c:58-75 | an address with the announced prefix that the test does not catch |
| DsaTag.ParserAgreesWithClassifier | recipes-extended/xdp-dsa-examples/files/xdp_dsa_rx_monitor.c:152-183 | the userspace parser accepts exactly the frames the programs take plus link-local ones, with the same port and switch |
| DsaTag.ClassifyExact | recipes-extended/xdp-dsa-examples/files/xdp_dsa_meta.c:89-131 | on the octets: a frame is taken if and only if its tag is 81:00 or 88:A8, both reserved bits are set and its address is not one of the two link-local ones; port, switch and priority are these bits of octets 14 and 15 |
| DsaTag.RedirectExact | recipes-extended/xdp-dsa-examples/files/xdp_dsa_redirect.c:65-122 | the redirecting program takes exactly these frames if a socket is bound |
| DsaTag.ParseExact | recipes-extended/xdp-dsa-examples/files/xdp_dsa_rx_monitor.c:152-183 | the userspace parser reads exactly the tagged frames, with these bits as port and switch |
| XdpMeta.PassKeepsFrame | recipes-extended/xdp-dsa-examples/files/xdp_dsa_meta.c:138-206 | a frame passed to the kernel is unchanged if and only if it was not taken, had no metadata room, or is a runt whose bytes repeat with period four |
| XdpMeta.MetaOutcomeExact | recipes-extended/xdp-dsa-examples/files/xdp_dsa_meta.c:89-207 | verdict, frame and the four octets of the record for every frame, on the octets: port, switch and priority, and flags 3, or 2 for a runt |
| XdpMeta.GetMetaExact | recipes-extended/xdp-dsa-examples/files/xdp_dsa_port_rx.c:154-164 | no record is looked for in the first four bytes of a UMEM frame, and four bytes before the packet otherwise |
| XdpMeta.RuntIsDamaged | recipes-extended/xdp-dsa-examples/files/xdp_dsa_meta.c:175-193 | a 16-byte frame that is passed on with other bytes |
| XdpMeta.MoveUp | recipes-extended/xdp-dsa-examples/files/xdp_dsa_meta.c:175-190 | the descending overlapping copy moves the old bytes and leaves all others |
| XdpMeta.MarkedParts | recipes-extended/xdp-dsa-examples/files/xdp_dsa_meta.c:154-190 | after the copy the record precedes a frame whose tag is overwritten by the addresses |
| XdpMeta.StrippedParts | recipes-extended/xdp-dsa-examples/files/xdp_dsa_meta.c:160-198 | after the head has moved the frame is its first twelve bytes followed by those from the sixteenth on, with the record in front |
| XdpMeta.XdpBuffer.XdpDsaMeta | recipes-extended/xdp-dsa-examples/files/xdp_dsa_meta.c:77-207 | verdict, frame and record are those of the outcome for every frame, the record of a stripped one being port, switch and priority of its octets 14 and 15 and flags 3, and no byte outside record and frame changes |
| XdpMeta.XdpBuffer.RecordAndStrip | recipes-extended/xdp-dsa-examples/files/xdp_dsa_meta.c:154-193 | from 18 bytes on the tag is gone and the record is in front; below, the head stays and the damaged frame remains |
| XdpMeta.XdpBuffer.SetStripped | recipes-extended/xdp-dsa-examples/files/xdp_dsa_meta.c:195-198 | sets one flag of the record and leaves frame and other bytes alone |
| XdpMeta.XdpBuffer.WriteMeta | recipes-extended/xdp-dsa-examples/files/xdp_dsa_meta.c:154-158 | the four fields land in the four bytes before the packet |
| XdpMeta.RecordIsFound | recipes-extended/xdp-dsa-examples/files/xdp_dsa_port_rx.c:154-164 | for a packet inside a UMEM frame the consumer reads exactly the record the program left, inside the same frame |
| XdpAccounting.VerdictsAgree | recipes-extended/xdp-dsa-examples/files/xdp_dsa_redirect.c:65-122 | the two programs give the same verdict if and only if the frame is not taken or has at least 18 bytes |
| XdpAccounting.StatisticsExact | recipes-extended/xdp-dsa-examples/files/xdp_dsa_port_rx.c:230-246 | after any run, packets and bytes of every port are the number and total length of the packets whose record or tag names it, and each error counter is the number of packets of its kind, modulo 2^64 |
| XdpAccounting.PortAfter | recipes-extended/xdp-dsa-examples/files/xdp_dsa_rx_monitor.c:257-263 | one packet adds one and its length to the port it names and leaves every other port alone |
| XdpAccounting.DeliveriesAppend | recipes-extended/xdp-dsa-examples/files/xdp_dsa_redirect.c:115-121 | deliveries follow the frames one by one, in order |
| XdpAccounting.DeliveriesOne | recipes-extended/xdp-dsa-examples/files/xdp_dsa_meta.c:200-206 | what one frame puts in front of each application: the tagged frame, or its twelve first bytes and those from the sixteenth on with their record |
| XdpAccounting.TakenFrameCorresponds | recipes-extended/xdp-dsa-examples/files/xdp_dsa_meta.c:118-206 | a taken frame reaches both applications with the same port and switch, stripped on one path, tagged on the other, both flags set |
| XdpAccounting.BytesDifference | recipes-extended/xdp-dsa-examples/files/xdp_dsa_rx_monitor.c:257-263 | byte counters four bytes per packet apart stay so modulo 2^64 |
| XdpAccounting.AccountKeepsAgreement | recipes-extended/xdp-dsa-examples/files/xdp_dsa_port_rx.c:230-246 | one corresponding packet keeps the two statistics in agreement |
| XdpAccounting.PathsAgree | recipes-extended/xdp-dsa-examples/files/xdp_dsa_meta.c:89-206 | over any run of frames of 18 or more bytes both paths deliver corresponding packets in order, end with equal packet counts per port, byte counts four a packet apart, and no error counted |
| XskRing.DistanceSurvivesWrap | recipes-extended/xdp-dsa-examples/files/xdp_dsa_port_rx.c:211-216 | differences of wrapped 32-bit indices are the true distances |
| XskRing.SlotSurvivesWrap | recipes-extended/xdp-dsa-examples/files/xdp_dsa_port_rx.c:225-249 | an index that wrapped selects the slot of the counter it stands for |
| XskRing.WindowUpdate | recipes-extended/xdp-dsa-examples/files/xdp_dsa_port_rx.c:249 | writing one slot changes exactly the entry of the window that lies there, across the end of the ring |
| XskRing.Ring.Reserve | recipes-extended/xdp-dsa-examples/files/xdp_dsa_port_rx.c:215-216 | reserves all of the slots asked for if they are free and none otherwise, contents unchanged |
| XskRing.Ring.Fill | recipes-extended/xdp-dsa-examples/files/xdp_dsa_port_rx.c:249 | changes one pending entry and nothing the consumer can see |
| XskRing.Ring.Submit | recipes-extended/xdp-dsa-examples/files/xdp_dsa_port_rx.c:253 | the pending entries join the contents in order |
| XskRing.Ring.Peek | recipes-extended/xdp-dsa-examples/files/xdp_dsa_port_rx.c:211-213 | looks at between one and all of the entries, up to the number asked for, and at none only if there are none; all of them when nothing was left of what was seen before |
| XskRing.Ring.Entry | recipes-extended/xdp-dsa-examples/files/xdp_dsa_port_rx.c:225-227 | reads the entry at that place of the contents |
| XskRing.Ring.Release | recipes-extended/xdp-dsa-examples/files/xdp_dsa_port_rx.c:252 | takes the peeked entries off the front and keeps the rest |
| XdpReceiver.PlacedPacketIsSeen | recipes-extended/xdp-dsa-examples/files/xdp_dsa_port_rx.c:225-230 | the packet a program left in a buffer is the packet the application sees |
| XdpReceiver.Receiver.PopulateFillQueue | recipes-extended/xdp-dsa-examples/files/xdp_dsa_port_rx.c:322-339 | fills an empty ring with every frame base once, in order, and otherwise changes nothing |
| XdpReceiver.Receiver.Handle | recipes-extended/xdp-dsa-examples/files/xdp_dsa_rx_monitor.c:257-274 | one descriptor changes the statistics as accounting for its packet does, on either path |
| XdpReceiver.Receiver.HandleBatch | recipes-extended/xdp-dsa-examples/files/xdp_dsa_rx_monitor.c:244-278 | the loop accounts for the batch in order and writes each address to its reserved slot |
| XdpReceiver.Receiver.ProcessRx | recipes-extended/xdp-dsa-examples/files/xdp_dsa_port_rx.c:205-254 | moves a batch of up to 64 descriptors from the receive ring to the fill ring address by address, accounts for each once, finds room for all of them, and does nothing only if the ring is empty |
| XdpUmem.TakeConserves | recipes-extended/xdp-dsa-examples/files/xdp_dsa_port_rx.c:290-317 | assumed kernel step on the shared memory: taking a buffer off the fill ring moves one frame and loses none |
| XdpUmem.DeliverConserves | recipes-extended/xdp-dsa-examples/files/xdp_dsa_port_rx.c:143-164 | assumed kernel step on the shared memory: delivering a packet anywhere inside a held frame moves that frame and no other |
| XdpUmem.ReleaseConserves | recipes-extended/xdp-dsa-examples/files/xdp_dsa_port_rx.c:249-252 | releasing the batch leaves each of its frames in hand exactly once |
| XdpUmem.SubmitConserves | recipes-extended/xdp-dsa-examples/files/xdp_dsa_port_rx.c:253 | submitting puts the frames in hand back on the fill ring |
| XdpUmem.RunKeepsInv | recipes-extended/xdp-dsa-examples/files/xdp_dsa_port_rx.c:205-254 | conservation, alignment, batch order and the packets themselves are kept in every state of every interleaving of kernel and application |
| XdpUmem.BuffersConserved | recipes-extended/xdp-dsa-examples/files/xdp_dsa_port_rx.c:205-254 | in every reachable state the 2048 frame bases are each in one place, the reservation succeeds, the warning branch is unreachable, and the receive ring has room for every frame the kernel holds |
| XdpUmem.RingUntouched | recipes-extended/xdp-dsa-examples/files/xdp_dsa_port_rx.c:218-250 | a packet written into a frame the kernel holds leaves every packet on the receive ring as it was |
| XdpUmem.PacketsAccounted | recipes-extended/xdp-dsa-examples/files/xdp_dsa_port_rx.c:205-254 | in every reachable state the packets accounted for are the first ones delivered, in order, each once and with the bytes it had then, and the others wait on the ring unchanged |
| XdpUmem.BatchUninterrupted | recipes-extended/xdp-dsa-examples/files/xdp_dsa_rx_monitor.c:227-285 | the steps of a batch of any size a peek may give, taken without interruption, have the effect proved of the receive loop |
| XdpRun.DeliveredAsCarried | recipes-extended/xdp-dsa-examples/files/xdp_dsa_port_rx.c:143-164 | every packet reaches the application with the frame and the record the BPF program left |
| XdpRun.AccountAppend | recipes-extended/xdp-dsa-examples/files/xdp_dsa_port_rx.c:218-250 | accounting for one batch after the other is accounting for all of them |
| XdpRun.ReceiversAgree | recipes-extended/xdp-dsa-examples/files/xdp_dsa_rx_monitor.c:227-285 | the two applications on their own memories and timings: whenever both have accounted for as many packets of one frame sequence, packet counts agree per port, byte counts are four a packet apart, and no error is counted |
| RateLimiter.SameWindow | recipes-extended/real-time-edge-prl/files/prl.c:124-134 | the loop's subtraction test says exactly whether a line falls in the current aligned window |
| RateLimiter.LoopStep | recipes-extended/real-time-edge-prl/files/prl.c:130-153 | one line: the loop's decision is the quota decision over the whole trace, and its counters stay right |
| RateLimiter.MainLoop | recipes-extended/real-time-edge-prl/files/prl.c:110-157 | an interval of zero divides by zero; for every other a line is printed if and only if fewer lines than the quota came before it in its window, and the base is the greatest multiple of the interval not above the latest time |
| RateLimiter.WindowExact | recipes-extended/real-time-edge-prl/files/prl.c:130-153 | a window prints the smaller of its lines and its quota |
| RateLimiter.RateBound | recipes-extended/real-time-edge-prl/files/prl.c:130-153 | in any stretch of any length at most a cap's worth of lines is printed for every window it can touch |
| RateLimiter.CeilDivExact | recipes-extended/real-time-edge-prl/files/prl.c:130-148 | the number of windows in the bound is the least that covers the stretch |
| RateLimiter.StraddlingBurst | recipes-extended/real-time-edge-prl/files/prl.c:135-153 | a burst on both sides of a window boundary is printed in full, twice the count |
| RateLimiter.PromiseExact | recipes-extended/real-time-edge-prl/files/prl.c:161-168 | the promise of at most count lines in a period holds on all traces if and only if the period crosses no window boundary, or for count zero lies in the clock's first window |
| BeeTransfer.DeliverKeepsAt | recipes-extended/real-time-edge-libbee/files/bee.c:168-312 | each message handled takes the two nodes from one expected state to the next, or to a write outside the name array or the block |
| BeeTransfer.RunStaysAt | recipes-extended/real-time-edge-libbee/files/bee.c:258-312 | every state of every run, whatever is lost and whatever the name and the size, is one of the expected ones |
| BeeTransfer.TakeInfo | recipes-extended/real-time-edge-libbee/files/bee.c:262-281 | taking the announcement sets the client up with name, size and block, or overruns the name array if the name has 30 bytes |
| BeeTransfer.TakeEnd | recipes-extended/real-time-edge-libbee/files/bee.c:159-166 | the end message, if its filler fits the block, saves the first cells of the buffer under the announced name |
| BeeTransfer.ChunksMakeFile | recipes-extended/real-time-edge-libbee/files/bee.c:168-186 | the first frames put together are the file's prefix of that length |
| BeeTransfer.AllChunks | recipes-extended/real-time-edge-libbee/files/bee.c:168-186 | all frames put together are the file |
| BeeTransfer.LosslessProgress | recipes-extended/real-time-edge-libbee/files/bee.c:214-312 | with nothing lost there is one message in flight until exactly as many have been sent as the transfer takes, and then it is over: none for a server that overruns at its start, two for a name the client has no room for |
| BeeTransfer.PerFrameHolds | recipes-extended/real-time-edge-libbee/files/bee.c:287-298 | with a cursor that moves by the frame the block covers the file and every write stays inside it |
| BeeTransfer.CumulativeCursor | recipes-extended/real-time-edge-libbee/files/bee.c:288-289 | after k full frames the program's cursor is at 50 k (k + 1) |
| BeeTransfer.TakeFrame | recipes-extended/real-time-edge-libbee/files/bee.c:262-292 | a data frame moves the client on by one frame if it fits the block, and writes outside it otherwise |
| BeeTransfer.ReceiveExact | recipes-extended/real-time-edge-libbee/files/ReadWrite_Routines.c:244-246 | a payload runs past the scratch area of 100 bytes or past the block exactly when it does not fit, and otherwise changes the cells it lands in |
| BeeTransfer.BlockExact | recipes-extended/real-time-edge-libbee/files/bee.c:275-289 | every write up to the end message stays inside the block of size + 32 if and only if the cursor moves by the frame or the file has at most 100 bytes |
| BeeTransfer.CumulativeHolds | recipes-extended/real-time-edge-libbee/files/bee.c:270-298 | with the program's cursor the block covers the file with every write inside it if and only if the file has at most 100 bytes |
| BeeTransfer.GapsExact | recipes-extended/real-time-edge-libbee/files/bee.c:287-298 | the size of the block aside, the program's cursor covers the file if and only if it has at most 200 bytes |
| BeeTransfer.CompletionExact | recipes-extended/real-time-edge-libbee/files/bee.c:214-312 | whatever is lost and when, the transfer gets to its end, good or bad, if and only if none of the messages it takes was lost |
| BeeTransfer.TransferSafety | recipes-extended/real-time-edge-libbee/files/bee.c:159-312 | in any run with losses the client never gives up, never takes a chunk twice or out of order, saves only after all chunks, and then the right file under the announced name and nothing else on its disk; the counters differ by what is in flight; and either program writes outside its memory only if the condition of `LosslessTransfer` fails |
| BeeTransfer.LosslessTransfer | recipes-extended/real-time-edge-libbee/files/bee.c:71-312 | a run with nothing lost, however far an earlier client got, ends with the right file saved under its name, after exactly 2 ceil(N/100) + 4 messages, if and only if the announced name has at most 29 bytes, the file at most 2^31 - 33 and the cursor moves by the frame or the file has at most 100; otherwise with a write outside memory |
| BeeTransfer.NeverAsksAgain | recipes-extended/real-time-edge-libbee/files/bee.c:294-311 | whatever replies a client hears, it never asks for the file again: the first end message with the wrong size makes it exit |
| BeeTransfer.FileOf150 | recipes-extended/real-time-edge-libbee/files/bee.c:262-298 | a file of 150 bytes: the eighth message writes to cell 250 of a block of 182 |
| BeeTransfer.NameOf30 | recipes-extended/real-time-edge-libbee/files/bee.c:271-274 | a file of 50 bytes with a name of 30: the client overruns its name array at the second message and saves nothing |
| BeeTransfer.NameOf31 | recipes-extended/real-time-edge-libbee/files/bee.c:91-96 | a name of 31 bytes overruns the server's name array at once |
| BeeTransfer.SaveToExact | recipes-extended/real-time-edge-libbee/files/bee.c:159-166 | saving puts the content first, keeps the rest of a longer old file behind it, and leaves every other file as it was |
| BeeTransfer.SavedFileExact | recipes-extended/real-time-edge-libbee/files/bee.c:159-166 | the file on disk is the file sent if and only if no longer one of that name was there, and other files are untouched |
| BeeNode.BeeServer.SendFile | recipes-extended/real-time-edge-libbee/files/bee.c:168-192 | the next at most 100 bytes or the end message go out, as the server step says |
| BeeNode.BeeServer.constructor | recipes-extended/real-time-edge-libbee/files/bee.c:91-96 | the name is copied to its 30 bytes, or runs past them, as the model of the server says |
| BeeNode.BeeServer.OnRequest | recipes-extended/real-time-edge-libbee/files/bee.c:263-285 | the server's part of the switch is the server step |
| BeeNode.BeeClient.OnReply | recipes-extended/real-time-edge-libbee/files/bee.c:262-311 | the client's part of the switch is the client step with the cursor as written: name, allocation, writes outside memory and the saved file included |
| BeeNode.BeeClient.OnInfo | recipes-extended/real-time-edge-libbee/files/bee.c:270-281 | the announcement sets name, size, block, cursor and counter, or overruns the name array |
| BeeNode.BeeClient.RecvFile | recipes-extended/real-time-edge-libbee/files/bee.c:159-166 | the first cells of the block go to the file of that name, what was longer stays |
| BeeNode.BeeClient.ReadRxFifo | recipes-extended/real-time-edge-libbee/files/ReadWrite_Routines.c:244-246 | the payload lands byte by byte where the buffer pointer points, unless it does not fit the allocated block |
| BeeCodec.CellReached | recipes-extended/real-time-edge-libbee/files/ReadWrite_Routines.c:172-201 | the two address bytes select every 10-bit cell, and tell reads from writes |
| BeeCodec.Radio.WriteLong | recipes-extended/real-time-edge-libbee/files/ReadWrite_Routines.c:172-183 | changes exactly the addressed cell |
| BeeCodec.Radio.ReadLong | recipes-extended/real-time-edge-libbee/files/ReadWrite_Routines.c:186-201 | reads the addressed cell |
| BeeCodec.FillTxBuffer | recipes-extended/real-time-edge-libbee/files/ReadWrite_Routines.c:269-294 | the static buffer holds the frame for this command and payload |
| BeeCodec.TxFrameCells | recipes-extended/real-time-edge-libbee/files/ReadWrite_Routines.c:269-294 | header length 11, frame length, control octets, command, eight address octets, payload |
| BeeCodec.WriteTxNormalFifo | recipes-extended/real-time-edge-libbee/files/ReadWrite_Routines.c:265-301 | the transmit FIFO holds the frame cell by cell |
| BeeCodec.ReadRxFifo | recipes-extended/real-time-edge-libbee/files/ReadWrite_Routines.c:223-247 | returns the frame's payload, command and size although the loop bound moves on the first turn; a length outside 13 to 113 runs past the static buffers |
| BeeCodec.FrameRoundTrip | recipes-extended/real-time-edge-libbee/files/ReadWrite_Routines.c:215-264 | every payload of up to 100 bytes and every command, once relaid by the radio, are read as sent, with a size of payload plus 13 |
| BeeCodec.Exchange | recipes-extended/real-time-edge-libbee/files/ReadWrite_Routines.c:223-301 | writing the transmit FIFO, carrying the frame over and reading the receive FIFO returns what was sent |
| BeeCodec.ReplyRoundTrip | recipes-extended/real-time-edge-libbee/files/bee.c:194-212 | every reply that fits a frame is parsed as the reply that was sent, a name as far as its length was announced |
| BeeCodec.RequestRoundTrip | recipes-extended/real-time-edge-libbee/files/bee.c:194-212 | every request arrives as the request that was sent, whatever byte comes with it |
| BeeCodec.MessageOctets | recipes-extended/real-time-edge-libbee/files/bee.c:118-123 | the five command octets, and an announcement of four octets of size, one of length, and the name |
| BeeCodec.ReplyFits | recipes-extended/real-time-edge-libbee/files/bee.c:204-211 | in every state of every run the reply in flight fits a frame, its size four bytes and its name the byte of its length |
| BeeCodec.MessageCrosses | recipes-extended/real-time-edge-libbee/files/bee.c:258-312 | in every state of every run the message in flight, sent as a frame, is heard by the other node as that message |
| AciSetup.Setup.AciSetupLoop | recipes-extended/real-time-edge-libblep/files/acilib.c:228-263 | the next message goes out after success or continue, the end of the list completes, any other status fails |
| AciSetup.Setup.HandleEvent | recipes-extended/real-time-edge-libblep/files/acilib.c:289-311 | one event either settles the outcome or moves the row on by one message |
| AciSetup.Setup.DoAciSetup | recipes-extended/real-time-edge-libblep/files/acilib.c:265-314 | ends for every device, returns what the row of replies decides, and has sent a first stretch of the messages in order |
| AciSetup.AcknowledgedRow | recipes-extended/real-time-edge-libblep/files/acilib.c:278-312 | the row is the longest run of encouraging replies in time |
| AciSetup.RowEnds | recipes-extended/real-time-edge-libblep/files/acilib.c:284-307 | the reply that breaks the row fixes the outcome and the number of messages |
| AciSetup.OutcomeExact | recipes-extended/real-time-edge-libblep/files/acilib.c:278-313 | outcome and number of messages for every dialogue, by the first reply that is late, no command response, or neither success nor continue |
| AciSetup.SentOnlyAfterReply | recipes-extended/real-time-edge-libblep/files/acilib.c:232-242 | each message after the first was preceded by an encouraging reply to the one before |
| AciSetup.SuccessExact | recipes-extended/real-time-edge-libblep/files/acilib.c:278-313 | success means that all messages were sent if and only if every message but the last was acknowledged; otherwise the device declared completion early |
| AciSetup.CompleteAtOnce | recipes-extended/real-time-edge-libblep/files/acilib.c:278-313 | a device that declares completion at once: success after one message |
| AciWire.MirrorBit | recipes-extended/real-time-edge-libblep/files/acilib.c:56-66 | bit i from the bottom decides bit i from the top |
| AciWire.ByteM2L | recipes-extended/real-time-edge-libblep/files/acilib.c:56-66 | the loop mirrors the octet |
| AciWire.Spi.MirrorTx | recipes-extended/real-time-edge-libblep/files/acilib.c:114-115 | mirrors the octets to be sent in place and leaves the rest of the buffer |
| AciWire.Spi.MirrorRx | recipes-extended/real-time-edge-libblep/files/acilib.c:122-127 | mirrors exactly the event and blanks what follows, although the bound is an octet the first turn rewrites |
| AciWire.Spi.Transfer | recipes-extended/real-time-edge-libblep/files/acilib.c:100-128 | both buffers after an exchange as functions of what was in them and on the wire |
| AciWire.MessageArrives | recipes-extended/real-time-edge-libblep/files/acilib.c:114-119 | a device that reads from the other end sees the message the host meant |
| AciWire.EventArrives | recipes-extended/real-time-edge-libblep/files/acilib.c:117-128 | an event is received as far as the exchange reaches, and nothing after it is |
| AciWire.ReplyIsRead | recipes-extended/real-time-edge-libblep/files/acilib.c:291-303 | opcode and status read by the setup dialogue are the device's as far as the event has them, and zero beyond its end |
| AciWire.MissingStatus | recipes-extended/real-time-edge-libblep/files/acilib.c:122-127 | a command response without a status is read as success and makes the dialogue go on |
| AciWire.SecondExchange | recipes-extended/real-time-edge-libblep/files/acilib.c:273-292 | a second exchange without clearing the buffer sends the message again unmirrored, and what lies behind it mirrored |
| LoginText.PlainLoginParses | recipes-extended/real-time-edge-nodejs-lbt/files/client.js:283-312 | a printed login with separator-free names parses, in every number notation, to the login that was meant |
| LoginText.LoginTextExact | recipes-extended/real-time-edge-nodejs-lbt/files/client.js:283-308 | what a text with or without a user and with or without a port parses to: root and 22 where they are missing |
| LoginText.LoginRefusedExact | recipes-extended/real-time-edge-nodejs-lbt/files/client.js:294-306 | a text is refused if and only if it has two colons, or two at signs before the first |
| LoginText.PrintedLoginExact | recipes-extended/real-time-edge-nodejs-lbt/files/client.js:310-312 | a login in print, with root for no user and 22 for no port |
| LoginText.LoginRoundTrip | recipes-extended/real-time-edge-nodejs-lbt/files/client.js:283-312 | printing and parsing gives a login back if and only if it names a user, has a number other than zero and NaN for its port, and its names hold neither separator |
| LoginText.ColonIsRefused | recipes-extended/real-time-edge-nodejs-lbt/files/client.js:289-296 | a colon in a name makes the text unreadable, never another login |
| LoginText.TextSettles | recipes-extended/real-time-edge-nodejs-lbt/files/client.js:283-312 | a login text that parses, its port in any notation, settles after one trip, with JSON on the way or without |
| LoginText.SendIperfExact | recipes-extended/real-time-edge-nodejs-lbt/files/client.js:316-338 | which iperf flows can be sent, and what is sent, with -1 for no bandwidth |
| LoginText.SendPingExact | recipes-extended/real-time-edge-nodejs-lbt/files/client.js:339-358 | which ping flows can be sent, and what is sent, with -1 for no interval |
| LoginText.RecvExact | recipes-extended/real-time-edge-nodejs-lbt/files/client.js:362-408 | which received flows are shown, with n/a for no limit |
| LoginText.IperfSettles | recipes-extended/real-time-edge-nodejs-lbt/files/client.js:316-386 | an iperf flow that can be sent comes back through JSON sendable, with login texts and numbers settled and a bandwidth only for udp, and does not change again |
| LoginText.PingSettles | recipes-extended/real-time-edge-nodejs-lbt/files/client.js:339-406 | a ping flow that can be sent comes back through JSON sendable, with login texts and interval settled and the packet size as typed, and does not change again |
| LoginText.FlowsSettle | recipes-extended/real-time-edge-nodejs-lbt/files/client.js:314-408 | lists that can be sent come back item for item, in order, with every setting as it settles, and saving again changes nothing |
| LoginText.SettingKeptExact | recipes-extended/real-time-edge-nodejs-lbt/files/client.js:329-336 | a setting comes back as the number it was taken for if and only if that is finite |
| LoginText.UnlimitedBecomesZero | recipes-extended/real-time-edge-nodejs-lbt/files/client.js:371-384 | a udp flow of infinite bandwidth comes back with bandwidth zero |
| LoginText.CurateFlowsForSend | recipes-extended/real-time-edge-nodejs-lbt/files/client.js:314-360 | the loops build the list that sending every flow gives, or refuse if one flow is refused |
| LoginText.ParseRecvFlows | recipes-extended/real-time-edge-nodejs-lbt/files/client.js:362-408 | the loops build the list that receiving every flow gives, or refuse if one flow is refused |
| Console.StartsExact | recipes-extended/canfestival/files/0003-canfestival-add-new-app.patch:1595-1603 | the recorded places are exactly those where a word begins, each once, left to right |
| Console.WordsAreMaximal | recipes-extended/canfestival/files/0003-canfestival-add-new-app.patch:1589-1607 | every word is non-empty, space-free and cannot be extended on either side |
| Console.NoCharacterLost | recipes-extended/canfestival/files/0003-canfestival-add-new-app.patch:1589-1607 | every character that is not a space lies in one of the words |
| Console.CutWord | recipes-extended/canfestival/files/0003-canfestival-add-new-app.patch:1596-1598 | read as a C string from the cut buffer, a word is the word of the line |
| Console.StrSplit | recipes-extended/canfestival/files/0003-canfestival-add-new-app.patch:1589-1607 | cuts in place and returns the words of the line in order, never an empty one; an eleventh word runs past the vector |
| Console.Lookup | recipes-extended/canfestival/files/0003-canfestival-add-new-app.patch:1615-1620 | finds the first entry that matches up to case, or none if there is none |
| Console.SameNameExact | recipes-extended/canfestival/files/0003-canfestival-add-new-app.patch:1616 | two names are the same if and only if they differ in the case of Latin letters at most |
| Console.NeverNull | recipes-extended/canfestival/files/0003-canfestival-add-new-app.patch:1609-1626 | if only unnamed entries lack a handler, no line reaches one without |
| Console.DispatchExact | recipes-extended/canfestival/files/0003-canfestival-add-new-app.patch:1609-1626 | every line: more than ten words, no word, a first word that no entry has, or the handler of the first entry that has it, with all words |
| Console.HelpIsFound | recipes-extended/canfestival/files/0003-canfestival-add-new-app.patch:1545-1549 | help is found in capitals too, whatever has been registered |
| Console.Terminal.RegisterCmd | recipes-extended/canfestival/files/0003-canfestival-add-new-app.patch:1569-1587 | appends to the filled slots, refuses only a full table, and keeps the property that makes dispatch safe |
| Console.Terminal.CmdTableInit | recipes-extended/canfestival/files/0003-canfestival-add-new-app.patch:1448-1469 | registers the application's entries in order, among them the unnamed one, as far as the table has room, and keeps dispatch safe |
| Console.Terminal.CmdExe | recipes-extended/canfestival/files/0003-canfestival-add-new-app.patch:1609-1626 | calls the handler that dispatch names with the words of the line, and never the null handler; only lines of more than ten words run past the vector |

## Left out

- CmdExe: what the called handlers do.
- StrSplit: what happens after the eleventh word has been noted past the vector of ten.
- ReadRxFifo: what happens after a copy past the static buffers; link quality and signal strength are not returned.
- OnRequest: what a server does whose name has run past its array.
- OnReply: what happens after a write outside memory; a client that receives client messages is not modelled.
- ReplyRoundTrip: replies too long for a frame, which no run sends (`BeeCodec.ReplyFits`).
- Embed: an offset whose sum wraps around is an outcome of its own, because what the program then reads is undefined.
- XdpDsaMeta: the repeated bounds checks that only the BPF verifier needs cannot fail and are not repeated.
- LoginRoundTrip: the rounding of numbers and their notations are not spelled out, only what the language promises of the two conversions.
- PathsAgree: runs in which metadata room or the bound socket is missing; without room only the path that parses in userspace still delivers.
- MainLoop: the conversion of seconds and nanoseconds to one counter and the parsing of the two options.
- AddEntry: the parsing of core ids and addresses on the command line.
- DoAciSetup: the delay before each reaction; a device that answers with one reply after another is all that is assumed of it.
- Lookup: letters other than the basic Latin ones, for which the comparison depends on the locale.
- Opening, reading and writing files, memory that runs out, printing and hex dumps.
- Signals, threads, poll loops and the set-up of sockets and memory areas.
- The SPI, I2C and GPIO calls below the exchanges, and radio registers other than the FIFOs.
- The modbus simulators, the web server and the page, and the recipes and configuration of the layer.
