# Disk partitions: a Dafny model

The repository reads arrays and volumes with members missing (Linux md RAID, LVM), and reads, edits
and writes partition tables (GPT, MBR). This project models both halves and proves what they are
for: that the bytes read are the bytes stored, and that what is written is what is probed again.

`dafny verify dfyconfig.toml` checks everything. Every lemma is marked `{:induction false}`: each proof by
induction is written out, and none rests on a hypothesis Dafny supplies.

## The two halves

**Arrays and volumes.** One flat byte sequence is the specification. Placement functions
(`ParityLayout`, `Raid10Placement`, `Raid0Zones`, `LvmVolumes`) say where each byte goes and are
proved to be bijections; the field GF(2^8) of RAID6 (`GaloisField`) is proved from its shift-and-reduce
definition, tables included; recovery (`Raid5Recovery`, `Raid6Recovery`, `Raid6Survival`) is proved
exact; and the readers (`ChunkRead`, `MdArrays`, `LvmPieces`, `LvmReader`) are proved to return
exactly the stored bytes, through every split at chunks, zones, stripes, blocks and runs.
`MdAssembly` and `LvmMapper` say exactly what is accepted, and what is accepted is what the readers
rely on: `LvmResolved` proves of every volume the mapper resolves when there are bytes for it to hold.
`Encoding` writes any bytes out over an array and reads them back with members lost, so that "the
members hold these bytes" is not an empty assumption of the md readers. `ThinLookup` is the dm-thin
btree walk. `ParityRules` and `Raid10Rules` give the layouts a second time, by rules instead of
formulas: how parity moves, where Q stands, how chunks and copies follow one another, for each number a
superblock records; one placement follows each set of rules, and it is the one the code computes.
`MdDevices` and `LvmDevices` then say where the bytes of an array or a volume are on its devices,
counted off from the start and from the recorded data offset.

**Partition tables.** `Spans`, `Slots`, `FirstFit` and `GptGeometry` are the algorithms: the overlap
sweep, slot assignment, allocation and the table's shape. `Bytes`, `Utf16`, `GptHeader`,
`GptEntries`, `GptTable`, `MbrTable`, `MbrWriter` and `HybridMbr` are the formats: the GPT header and
entry array of sections 5.3.2 and 5.3.3 of the UEFI Specification, the legacy and protective MBR of
sections 5.2.1 and 5.2.3, and names in UTF-16 (sections 2.1 and 2.2 of RFC 2781). `GptWriter`,
`GptCommit`, `GptRoundTrip`, `MbrRoundTrip` and `Probing` prove that writing and probing undo each
other. `Editing`, `Placement`, `PartitionEditor` and `EditingSessions` are the editable set: a class
whose every run of edits keeps an invariant that the writers accept and keeps every partition in the
slot it has; on a GPT disk, session after session, each starting with what the last one left.
`ProbeRules`, `GptFormat` and `MbrFormat` tell what a probe decides on and where every field is by
literal bytes, reader and writer apart. `GptRecommit` proves exactly when committing an unedited set again leaves every byte of the disk
alone. CRC32 is any function of bytes to 32 bits.

## Findings

- Any two members of a RAID6 array can be lost exactly up to 257 members (255 in the three DDF
  layouts): `AnyTwoMembersExactly` proves both directions. Assembly accepts up to 1920 members, and
  `AssembledUnreadable` gives, for every larger count up to that, every known layout and every chunk
  size, devices that assembly accepts although a chunk of the array they make cannot be read. The
  same limit holds for LVM segments: `AcceptedReadsExactly`.
- The documentation weights data chunk `i` of a row by `{02}^i` (src/md.rs:46-50). The code numbers
  chunks in member order from the member after Q, which `QExponentRotates` shows to be the chunk
  number rotated; in the DDF layouts it is the member's own number.
- The LVM mapper accepts a RAID6 segment whose layout md does not know, and its chunks then have no
  place: `UnknownLayoutAccepted` gives the group and the segment, `AcceptedLegal` the condition.
- The runs of a mapped volume tile it exactly when its extents fit 64-bit byte offsets
  (`ResolvedTiles`); each segment's length is checked, the sum is not. `OversizeAccepted` gives a
  volume of two mirror segments of 2^63 bytes that resolves with size 0.
- The MBR writer takes a partition of type 0x00, of a container's type or of a GPT marker's, which
  then does not read back: `HiddenType`. `MbrRoundTrip.WrittenReadsBack` lists exactly what does.
- Writing a probed MBR back leaves the disk alone exactly when its volumes' status bytes are 0x00 or
  0x80, its empty slots are all zero and it was signed: `NoEditWrite`. `StatusLost` gives a disk for
  every other status byte.
- Committing a GPT set again, unedited, leaves the disk alone exactly when nothing follows the first
  NUL of a name and a marker that stands alone in LBA 0 is the one a commit makes: `TwiceExact`. A
  commit that drops the last stale mirror beside an unusual marker keeps the marker, and the next one
  replaces it: `LoneMarkerKept`.

## Model

| member | source | states |
|---|---|---|
| GaloisField.BuildTables | src/md.rs:640-656 | The generated tables are valid: `exp[i]` is two to the `i` by shift-and-reduce modulo 0x11d, and `log` undoes it on every non-zero byte |
| GaloisField.Tables.Mul | src/md.rs:663-669 | The table product of any two bytes is the shift-and-reduce product |
| GaloisField.Tables.Inv | src/md.rs:672-674 | The table inverse of a non-zero byte times it is one |
| GaloisField.Tables.Pow | src/md.rs:659-661 | The table power is two to any integer exponent, negative ones included |
| GaloisField.OrderIs255 | src/md.rs:658-661 | Two to the 255 is one and no smaller positive power is |
| GaloisField.PowInjective | src/md.rs:640-656 | Powers of two with different exponents below 255 differ |
| GaloisField.PowSurjective | src/md.rs:640-656 | Every non-zero byte is a power of two |
| GaloisField.TimesComm | src/md.rs:663-669 | The field product commutes |
| GaloisField.TimesAssoc | src/md.rs:663-669 | The field product associates |
| ParityLayout.Raid6ChunkOfMember | src/md.rs:555-609 | In every RAID6 layout, row and member count, P, Q and the member of each data chunk are distinct members, and the member's chunk number is the chunk's |
| ParityLayout.Raid6MemberOfChunk | src/md.rs:555-609 | Every member that is neither P nor Q holds the chunk its number says: with the previous row, a permutation |
| ParityLayout.Raid5ChunkOfMember | src/md.rs:507-541 | The same for the RAID4 and RAID5 layouts, from chunk to member |
| ParityLayout.Raid5MemberOfChunk | src/md.rs:507-541 | And from member to chunk |
| ParityLayout.ComputeQExponent | src/md.rs:618-633 | The loop ends, and gives the number of data members counted before the chunk's, below n - 2 outside the DDF layouts |
| ParityLayout.QExponentInjective | src/md.rs:618-633 | Two data chunks of a row have different exponents |
| ParityLayout.QExponentRotates | src/md.rs:611-633 | Exponents are the chunk numbers rotated, by an amount that depends on the row alone |
| ParityRules.Raid5ByRules | src/md.rs:515-541 | Every RAID4 and RAID5 layout by number: P starts on the last member and goes left in 0 and 2, on the first and goes right in 1 and 3, and stays in the others; chunks follow P in 2 and 3 and are in order of member in the others |
| ParityRules.Raid5Determined | src/md.rs:515-541 | Only the placement the code computes follows those rules |
| ParityRules.Raid6ByRules | src/md.rs:555-609 | The same of the fourteen RAID6 layouts: P's first member and its move, Q after P, before it or on the last member, and chunks following Q or P or in order of member |
| ParityRules.Raid6Determined | src/md.rs:555-609 | Only the placement the code computes follows those rules |
| ParityRules.WeightsCountOff | src/md.rs:611-633 | In layouts 8, 9 and 10 a chunk's weight in Q is its member's number; in the others the first data member after Q has weight 0 and each next one more |
| Raid10Placement.ComputeCopies | src/md.rs:757-774 | The loops list every near and far copy of a chunk |
| Raid10Placement.PrimaryFirst | src/md.rs:746-755 | The primary copy is the first of the copies |
| Raid10Placement.CopyLocated | src/md.rs:757-774 | Every copy is on a member of the array, in a row below the member's chunk count, and its place says which copy of which chunk it is: no two share a place |
| Raid10Placement.CopiesOnDistinctMembers | src/md.rs:757-774 | With near times far at most the members, a chunk's copies are on different members |
| Raid10Placement.FirstChunksCoverAll | src/md.rs:1039-1048 | If each of the first d chunks has a copy on a member that is there, every chunk has |
| Raid10Rules.Raid10ByRules | src/md.rs:746-774 | By the recorded word: near copies of consecutive chunks fill a row and then the next, and each far copy is as many members on as there are near copies, a stride down with bit 16 clear and one row with it set |
| Raid10Rules.Raid10Determined | src/md.rs:1023-1039 | Only the placement the code computes for that word follows those rules |
| Raid10Rules.FarCopiesApart | src/md.rs:764-768 | With bit 16 clear far copy k is in rows k strides up to k + 1 strides; with it set the far copies are in rows one after another |
| Raid10Rules.CopiesListed | src/md.rs:757-774 | The list has each copy at its near number times the far copies plus its far number |
| Raid0Zones.BuildZones | src/md.rs:699-718 | The zones follow one another over the members that reach them, and nothing else; there are as many as there are different positive sizes |
| Raid0Zones.ChainPlace | src/md.rs:1146-1173 | In both layouts every array byte is on a usable byte of one member, whose place gives the byte back |
| Raid0Zones.ChainPos | src/md.rs:1146-1173 | Every usable byte of every member is one array byte, which goes back there |
| Raid0Zones.ChainConserves | src/md.rs:699-718 | The zones from any depth on hold exactly the bytes members have past it |
| Raid0Zones.ZonesHoldAll | src/md.rs:699-718 | In all, the zones hold the sum of the members' usable sizes |
| Raid0Zones.SeveralZones | src/md.rs:1004-1006 | There is more than one zone exactly when two members have room and not the same |
| Raid5Recovery.RowAddsUp | src/md.rs:1262-1279 | The members of a consistent row add up to nothing |
| Raid5Recovery.OthersSumExact | src/md.rs:1262-1279 | The sum of the other members is the missing one, whichever it is |
| Raid5Recovery.RebuildRaid5 | src/md.rs:1262-1279 | The in-place rebuild fills the buffer with that sum, or fails exactly when another member is missing or short |
| Raid6Recovery.SolvePair | src/md.rs:1332-1349 | The pair formula gives one lost data byte from the residues of P and Q whenever the weights differ, and what is left of P is the other |
| Raid6Recovery.RebuiltExact | src/md.rs:1285-1353 | Whatever is missing, if the rebuild finds a plan, its byte is the byte the row held |
| Raid6Recovery.PlanMeaning | src/md.rs:1299-1351 | Which of the four ways is taken, and that it names the chunks that are missing |
| Raid6Recovery.RebuildRaid6 | src/md.rs:1285-1353 | The in-place rebuild succeeds exactly when there is a plan and members reach, and then fills the buffer with the rebuilt bytes and touches nothing else |
| Raid6Survival.TwoMissingRebuildable | src/md.rs:1285-1353 | With at most two members missing, up to the member limit, every data chunk of every row is rebuildable |
| Raid6Survival.TwoMissingNotAlways | src/md.rs:1332-1350 | Past the member limit there are a row, a chunk and two members such that, with only those two missing and every other member holding its whole row, the chunk cannot be rebuilt |
| Raid6Survival.AnyTwoMembersExactly | src/md.rs:1054-1082 | Any two members of an array can be lost if and only if it has at most 257 members, or 255 in a DDF layout |
| ChunkRead.ReadChunk | src/md.rs:1217-1279 | Reading part of a chunk succeeds exactly when its bytes can be had, and then fills exactly that part of the buffer with them |
| ChunkRead.ReadRaid10 | src/md.rs:1225-1245 | The first copy that is there and long enough is read, the primary first |
| ChunkRead.ReadParity | src/md.rs:1246-1279 | The data member is read, or rebuilt when it is missing |
| ChunkRead.ParityByteExact | src/md.rs:1217-1353 | Every byte read or rebuilt of a RAID4, 5 or 6 array is the array's |
| ChunkRead.Raid10ByteExact | src/md.rs:1225-1245 | Every byte read of a RAID10 array is the array's |
| ChunkRead.ParitySurvives | src/md.rs:1054-1082 | With no more members missing than there is parity, every chunk is readable |
| ChunkRead.Raid10Survives | src/md.rs:1039-1048 | With a copy left of each of the first chunks, every chunk is readable |
| Encoding.EncodeHolds | src/md.rs:1217-1353 | Any bytes can be laid out over any legal RAID4, 5 or 6 array with its parity |
| Encoding.LostMembersReadBack | src/md.rs:1217-1353 | Laid out, then read with any two members of a RAID6 array lost, or any one at levels 4 and 5, every byte is what was laid out |
| Encoding.EncodeCopiesHolds | src/md.rs:734-774 | Any bytes can be laid out in the copies of any RAID10 layout that fits |
| Encoding.LostCopiesReadBack | src/md.rs:1225-1245 | And read back with members lost while a copy of each chunk is left |
| MdArrays.ZonedRun | src/md.rs:1146-1173 | From any byte of a linear or RAID0 array to the end of its chunk or zone, bytes follow one another on one member, inside its usable size |
| MdArrays.ReadRaid1 | src/md.rs:1132-1144 | A mirror reads the array's bytes from the first member there |
| MdArrays.ReadAllZoned | src/md.rs:1371-1377 | A linear or RAID0 read returns exactly the array's bytes, however it is split |
| MdArrays.ReadStriped | src/md.rs:1378-1387 | A striped read returns exactly the array's bytes, and always succeeds within the member limit |
| MdArrays.ReadAt | src/md.rs:1356-1387 | At every level, a read is out of bounds exactly when it passes the end, and otherwise fills the buffer with the array's bytes from the offset; it cannot fail within the member limit |
| MdDevices.MirrorOnDevice | src/md.rs:1121-1144 | Array byte p of a mirror is the device's byte p after its data offset |
| MdDevices.ParityOnDevice | src/md.rs:1217-1260 | Byte w of chunk i of row r of a RAID4, 5 or 6 array is the device's byte, r chunks and w on from its data offset, of the member the layout's rules give; RAID4's are layout 5's |
| MdDevices.Raid6Syndromes | src/md.rs:1285-1353 | P and Q are on the members the rules give, and are the sum and the weighted sum of their row |
| MdDevices.Raid5Syndrome | src/md.rs:1262-1279 | P of a RAID4 or 5 row is on the member the rules give, and is the row's sum |
| MdDevices.CopyOnDevice | src/md.rs:1225-1245 | Every copy of every chunk of a RAID10 array is on the device and in the row the word's rules give |
| MdDevices.LinearOnDevice | src/md.rs:961-985 | Each member of a linear array comes after all those before it |
| MdDevices.ZoneOnDevice | src/md.rs:1146-1173 | In layout 1 the array's chunks are dealt round a zone's members by their number in the array, in any other by their number in the zone, from the lowest member on; each is its row's chunks into the zone on its device |
| MdAssembly.PlaceMembers | src/md.rs:915-935 | It succeeds exactly when no two devices claim one slot, and then every slot holds the up-to-date device that claims it, if there is one |
| MdAssembly.MembersPlaced | src/md.rs:915-935 | A slot holds a device whose superblock gives it that slot, as new as any and not recovering, with its data where the superblock says, and holds it if there is one |
| MdAssembly.AssembleParity | src/md.rs:1054-1098 | A RAID4, 5 or 6 array is accepted exactly when its chunk, layout and size are in range, no more members are missing than there is parity, and those there are long enough; the array is then the recorded one |
| MdAssembly.AcceptedUnreadable | src/md.rs:1054-1098 | For every member count past the limit that assembly takes, every known layout and every chunk size a superblock can record, there are slots with two members missing that the RAID6 checks accept and a chunk that cannot be read |
| MdAssembly.AssembledUnreadable | src/md.rs:884-1105 | So there are devices that assembly accepts, and every array assembled from them has a chunk inside its size that cannot be read |
| MdAssembly.AssembleRaid10 | src/md.rs:1015-1053 | A RAID10 array is accepted exactly when its chunk and layout are in range, each of its first chunks has a copy left, its size fits and its members are long enough; the array is then the recorded one |
| MdAssembly.AssembleRaid1 | src/md.rs:986-989 | A mirror is accepted exactly when a member is there and those there are long enough |
| MdAssembly.AssembleRaid0 | src/md.rs:990-1014 | A RAID0 array is accepted exactly when every member is there, its chunk is in range, and a layout is recorded if members are uneven; its size is the sum of their usable sizes |
| MdAssembly.AssembleLinear | src/md.rs:961-985 | A linear array is accepted exactly when every member is there and their usable sizes sum below 2^64; it has them end to end |
| MdAssembly.AssembleLevel | src/md.rs:959-1105 | At every level an array is accepted exactly when the level's own conditions hold |
| MdAssembly.Assemble | src/md.rs:884-1105 | Devices are accepted exactly when they are of one array that is not reshaping and has 1 to 1920 members, no slot is claimed twice, and the level's conditions hold of the members in place; the array is the one the first of the newest superblocks records, and meets everything the readers require |
| ThinLookup.Lookup | src/lvm/thin.rs:116-158 | At most 16 nodes are read on any metadata, cyclic included; on a well-formed tree of at most 16 levels the answer is the key's one value, or a hole exactly when it has none |
| ThinLookup.WalkExact | src/lvm/thin.rs:116-158 | The walk, defined on any metadata, gives that answer on every well-formed tree no deeper than the nodes it may read |
| ThinLookup.WalkByWords | src/lvm/thin.rs:125-152 | A node's keys are its first words and each value is as many words on as it has room for entries; a leaf answers with the value of the key, an inner node sends the walk to the one that covers it |
| ThinLookup.DataBlock | src/lvm/thin.rs:107-113 | A block is a hole exactly when it has no entry, and otherwise is its entry's value without the time bits |
| ThinLookup.Descend | src/lvm/thin.rs:137-152 | One step down the tree keeps every entry of the key |
| LvmVolumes.StripeOfPos | src/lvm.rs:1337-1351 | Every byte of a striped run is on one stripe, inside its share, and comes back from there |
| LvmVolumes.PosOfStripeByte | src/lvm.rs:1337-1351 | Every byte of every stripe's share is one byte of the run |
| LvmVolumes.TilesCover | src/lvm.rs:1320-1329 | Every byte of a tiled volume is in exactly one run |
| LvmDevices.UnitsInTurn | src/lvm.rs:1337-1354 | Stripe units are dealt to the stripes in turn, unit t n + j the t-th of stripe j, and a single stripe holds the run whole |
| LvmDevices.StripeOnVolume | src/lvm.rs:1268-1299 | A stripe is on the device of its physical volume, as many extents on from the first as it says |
| LvmDevices.ChunkOnImage | src/lvm.rs:1376-1399 | A chunk of a segment with parity is on the image its layout's rules give, its row's chunks into the image's data |
| LvmDevices.CopyOnImage | src/lvm.rs:1376-1399 | Every near copy of a chunk is on the image and in the row its word's rules give |
| LvmDevices.BlockInPool | src/lvm.rs:1411-1435 | A byte of a thin block is the pool's, in the block the entry's value names above its low 24 bits, or zero without an entry |
| LvmPieces.ReadStripes | src/lvm.rs:1334-1354 | A striped piece is the bytes wanted or those up to the end of its stripe unit, whichever is less, and is the run's bytes |
| LvmPieces.ReadRaid | src/lvm.rs:1355-1401 | A RAID piece is the bytes wanted or those up to the end of its chunk, whichever is less, and is the run's bytes, read or rebuilt |
| LvmPieces.ReadThin | src/lvm.rs:1411-1435 | A thin piece is the bytes wanted or those up to the end of its block, whichever is less, and is the pool's bytes or zeros in a hole |
| LvmReader.ReadRuns | src/lvm.rs:1313-1407 | A read of any range of a volume, through images and pools nested in any way, makes progress at every step and returns exactly the volume's bytes |
| LvmReader.ReadAt | src/lvm.rs:1501-1514 | A read of an opened volume is out of bounds exactly when it passes the end, and otherwise fills the buffer with the volume's bytes from the offset |
| LvmMapper.Survives | src/lvm.rs:1001-1013 | The answer is yes exactly when one image, one copy of each of the first chunks, or all but the parity count of images are there |
| LvmMapper.MapStriped | src/lvm.rs:1256-1310 | A striped segment is accepted exactly when its extents divide over stripes that all start on a physical volume given and end inside it and its device, in whole stripe units; it is refused for a missing physical volume exactly when the first stripe that fails names one not given |
| LvmMapper.MapRaid | src/lvm.rs:1128-1204 | A RAID segment is accepted exactly when its images are, a superblock is found, it describes an array the mapper takes, and enough images are there for its level; the mapping is that array. It is refused for a missing physical volume exactly when the metadata or too many images lack one |
| LvmMapper.MapImages | src/lvm.rs:1103-1126 | Images are accepted exactly when each resolves or lacks a physical volume; those that resolve have their runs, and those that lack one are the missing ones |
| LvmMapper.FindSuper | src/lvm.rs:1138-1158 | The superblock is the one in the first metadata sub-volume that resolves, all before it lacking a physical volume |
| LvmMapper.MapMirror | src/lvm.rs:1061-1073 | A mirror is accepted exactly when its images are and one of them is there |
| LvmMapper.MapThin | src/lvm.rs:1207-1254 | A thin segment is accepted exactly when its pool is one, both its sub-volumes resolve, and the walk of the pool's map of devices finds the device; the mapping has that root |
| LvmMapper.MapVolume | src/lvm.rs:1033-1097 | Mapping ends on every metadata, cyclic references included; it succeeds exactly when the volume resolves: one run per segment, in order, each mapped as its kind asks, its sub-volumes likewise; and it names a missing physical volume exactly when the first segment that fails lacks one |
| LvmSegments.ResolvedTiles | src/lvm.rs:1033-1097 | The runs tile the volume from 0 to its size if and only if its extents fit 64-bit byte offsets |
| LvmResolved.StripedByteInside | src/lvm.rs:1256-1353 | Every byte of an accepted striped run is on one stripe, inside its device, and comes back from there |
| LvmResolved.AcceptedLegal | src/lvm.rs:1159-1204 | An accepted segment can be placed if and only if a RAID6 layout is known |
| LvmResolved.AcceptedReadsExactly | src/lvm.rs:1001-1013 | Every chunk of every accepted RAID6 segment of a known layout can be read, whichever images are missing, if and only if it has no more images than the member limit |
| LvmResolved.UnknownLayoutAccepted | src/lvm.rs:1159-1204 | A group and a RAID6 segment of layout 7 that the mapper accepts, and whatever mapping it has cannot be placed |
| LvmResolved.OversizeAccepted | src/lvm.rs:1033-1097 | A group and a volume of two mirror segments of 2^63 bytes that resolves, with size 0, and whose runs do not tile it |
| LvmResolved.AcceptedReadable | src/lvm.rs:1001-1013 | Every chunk of an accepted segment with parity or copies can be read, if a RAID6 one is of a known layout and within the limit |
| LvmResolved.HoldsExactly | src/lvm.rs:1033-1435 | A resolved volume has bytes to hold, as many as its size, if and only if its extents fit 64-bit byte offsets, the images of each RAID segment are consistent and within the limit, and the map of each thin device is well formed and inside its pool: what the readers require |
| LvmResolved.StripesHold | src/lvm.rs:1256-1353 | A resolved volume of stripes that fits 64-bit byte offsets holds bytes whatever is on its devices |
| LvmResolved.ThinRootExact | src/lvm/thin.rs:97-104 | The root of a mapped thin run is its device's one entry in the pool's map of devices |
| LvmResolved.Open | src/lvm.rs:1471-1493 | Opening a volume succeeds exactly when its name resolves, and gives its runs and size |
| PartitionTable.SpanHoldsBytes | src/probe.rs:165-178 | A partition's span is exactly the sectors that hold some byte of it |
| PartitionTable.AvailableOnDevice | src/probe.rs:101-108 | What is available ends inside a device that states its size, and is the whole length exactly when the partition fits |
| PartitionTable.AvailableMost | src/probe.rs:101-108 | No more of the partition is on the device |
| PartitionTable.RangeIssues | src/gpt.rs:242-254 | A span breaks no range rule exactly when it is inside the usable range |
| Spans.MarkOverlaps | src/gpt.rs:261-295 | For spans in any order, the one pass flags a span if and only if another shares a sector with it |
| Spans.OverlapShares | src/gpt.rs:261-295 | Two spans overlap exactly when they share a sector |
| Spans.NoneOverlapIsDisjoint | src/gpt_write.rs:353-360 | No span is flagged exactly when they are pairwise disjoint |
| Spans.SortSpans | src/mbr.rs:486-493 | The sorted list is a permutation of the spans, pairwise disjoint exactly when they are |
| Spans.NeighboursSuffice | src/mbr.rs:493-498 | In order of start, comparing neighbours is comparing all pairs |
| Spans.AnyNeighboursOverlap | src/mbr.rs:486-498 | The writer's test refuses exactly the lists that are not pairwise disjoint |
| Slots.AssignSlots | src/gpt_write.rs:523-567 | It succeeds exactly when no claim clashes or is past the end and there is a slot for each entry; results are in range, distinct, not reserved, keep recorded slots and give the others the lowest free ones in order |
| Slots.AssignedUnique | src/gpt_write.rs:523-567 | Those rules leave only one assignment |
| Slots.RecordedStay | src/gpt_write.rs:523-567 | When every partition has a slot, the assignment is those slots |
| GptGeometry.RegionsApart | src/gpt_write.rs:120-241 | For every accepted shape and device, the boot sector, both headers, both arrays and the usable range are pairwise disjoint and inside the device |
| GptFormat.UsableLargest | src/gpt_write.rs:210-241 | Unless a header states less, the usable range is every sector between the two arrays |
| GptFormat.UsableNone | src/gpt_write.rs:210-241 | A device is too small only when there is none |
| GptGeometry.UsableRangeFits | src/gpt_write.rs:120-241 | No sum in an accepted shape leaves 64 bits |
| GptGeometry.DeclaredIsKept | src/gpt_write.rs:210-241 | A usable range written to a header is accepted again on the same device |
| FirstFit.FindFree | src/mutation.rs:502-529 | It returns the least aligned start in the usable range whose span misses every occupied one, and fails exactly when there is none, however the occupied spans nest or overlap |
| Utf16.DecodeEncode | src/gpt.rs:735-760 | Lossy decoding undoes encoding on every text |
| Utf16.NameUnits | src/gpt_write.rs:395-419 | The units stored are those of the longest prefix of whole characters that fits 36 units |
| Utf16.NameReadBack | src/gpt.rs:735-760 | A stored name reads as what was kept of it, cut at its first NUL, or as no name if that is empty |
| Utf16.NameAgain | src/gpt_write.rs:395-419 | A name read back is stored as it was if and only if nothing but NULs follows its first NUL |
| Bytes.ToFromLE | src/gpt_write.rs:611-629 | A number stored little-endian reads back |
| GptHeader.BuildHeader | src/gpt_write.rs:598-633 | The sector is the fourteen fields at their offsets, with the checksum of the header whose checksum bytes are zero |
| GptHeader.HeaderReadBack | src/gpt.rs:309-415 | For every checksum function a built header parses to the fields it was built from |
| GptFormat.HeaderWritten | src/gpt_write.rs:598-633 | Signature, revision, size, checksum and the ten fields are at their byte offsets, low byte first, and the rest is zero |
| GptFormat.HeaderParsed | src/gpt.rs:309-415 | A header that is read says what is at those offsets |
| GptEntries.EntryReadBack | src/gpt.rs:475-508 | Every field of a stored entry reads back, its tail included |
| GptFormat.EntryWritten | src/gpt_write.rs:365-420 | Type, UUID, first and last sector, attributes and tail are at their byte offsets, low byte first |
| GptFormat.NameWritten | src/gpt_write.rs:395-419 | Unit i of the name is at byte 56 + 2 i, low byte first, and zeros follow |
| GptFormat.EntryParsed | src/gpt.rs:475-508 | An entry that is read says what is at those offsets |
| GptEntries.ParseEntries | src/gpt.rs:472-553 | The result is an error exactly when some used entry runs backwards or does not fit, and otherwise the used entries in slot order with exactly the range and overlap rules each breaks |
| GptTable.PartReadBack | src/gpt_write.rs:365-420 | The entry written for a valid partition reads as that partition, with its name as kept |
| GptTable.TailByte | src/gpt_write.rs:365-420 | Each byte of a written tail is the tail's, or zero past its end |
| GptTable.BuildArray | src/gpt_write.rs:362-420 | The array holds each partition's entry in its slot and zeros elsewhere |
| GptRoundTrip.EntriesReadBack | src/gpt.rs:431-554 | The entries of a planned table read back as its partitions in slot order, breaking no rule |
| GptRoundTrip.TailsReadBack | src/gpt.rs:598-632 | Every tail reads back under its own UUID, cut or padded to the entry size |
| GptRoundTrip.TailsReloaded | src/gpt.rs:598-632 | The tails collected from a written table are exactly those of its partitions, cut or padded |
| GptWriter.PlanGpt | src/gpt_write.rs:333-363 | A table is accepted exactly when its shape fits, its partitions are valid, disjoint and have UUIDs, and slots can be assigned |
| GptWriter.TableWritesSeparate | src/gpt_write.rs:461-492 | The five stores of a commit are in bounds, apart from one another and from the usable range |
| GptCommit.WriteGpt | src/gpt_write.rs:325-495 | It succeeds exactly when the device is writable, the table is accepted and LBA 0 can be kept; a refusal leaves every byte alone; a success is the five stores and nothing else |
| GptCommit.RoomKept | src/gpt_write.rs:461-492 | A write leaves the usable range as it was |
| GptFormat.PrimaryOnDisk | src/gpt_write.rs:422-492 | The primary header is in sector 1 and says so, names the last sector as the other's, and has the usable range, GUID, shape and entries' checksum |
| GptFormat.BackupOnDisk | src/gpt_write.rs:422-492 | The backup is in the last sector, names sector 1, and has its own array just before it |
| GptFormat.EntryOnDisk | src/gpt_write.rs:362-492 | Each partition's entry is in its slot of the array from the shape's sector on |
| GptFormat.EntryInBackup | src/gpt_write.rs:362-492 | and in the same slot of the array that ends before the last sector |
| GptFormat.Lba0OnDisk | src/gpt_write.rs:433-463 | The first sector is the LBA 0 that was made |
| GptCommit.ProbeWritten | src/probe.rs:296-341 | Probing what was written finds a GPT whose backup agrees, with the partitions in slot order |
| GptCommit.ExpectedMembers | src/gpt.rs:431-554 | Those are exactly the partitions written, each with its range, type, attributes, UUID, slot, no issues and its name as kept |
| GptCommit.BackupReads | src/gpt.rs:659-674 | The backup copy parses to the same list |
| GptCommit.DamagedPrimaryRecovers | src/probe.rs:235-243 | Whatever has happened to the primary copy, as long as LBA 0 or LBA 1 still says there is a GPT and the backup is there, probing with the backup finds the table written and says so |
| GptCommit.EntriesOnDisk | src/gpt.rs:431-470 | The entry array is read back whole, so the tails of `TailsReadBack` are what is found in it |
| GptCommit.GeometryOnDisk | src/mutation.rs:135-176 | A set read from the written disk has its GUID and the same usable range |
| Probing.EntryTails | src/gpt.rs:598-632 | The tails are collected exactly when no two entries share a UUID and differ |
| Probing.RunProbe | src/probe.rs:296-390 | The probe, run copy by copy and entry by entry, gives what `ProbeWritten`, `DamagedPrimaryRecovers` and the rows of `ProbeRules` are about |
| Probing.AgreeingCopies | src/gpt.rs:686-733 | When the copies are said to agree, every partition of either is in the other with the same range, UUID, type, slot and name |
| ProbeRules.AgreeIsSame | src/gpt.rs:686-733 | Two lists in order of slot agree exactly when they are of the same partitions: range, UUID, type, slot and name |
| ProbeRules.PrimaryRead | src/probe.rs:326-337 | With "EFI PART" in sector 1 and a primary that can be read, the answer is its partitions; with the backup consulted it says Primary if and only if the backup can be read and lists the same partitions, and stale otherwise |
| ProbeRules.PrimaryLost | src/probe.rs:338-340 | A primary that cannot be read is its own error, unless the backup is consulted and can be |
| ProbeRules.NoGptSignature | src/probe.rs:342-390 | Without that signature the bytes 55 AA and the types of the four entries decide: no table, a 4Kn refusal, the backup or an error behind a marker alone, and otherwise the MBR's volumes |
| HybridMbr.HybridKept | src/gpt_write.rs:654-746 | On a hybrid disk whose mirrors all still match, LBA 0 is kept byte for byte |
| HybridMbr.Lba0Again | src/gpt_write.rs:654-746 | LBA 0 written over itself comes out as it was if and only if it is signed, has one marker, nothing stale and nothing in its empty slots, and a marker that stands alone is the one a commit makes |
| HybridMbr.WrittenLba0 | src/gpt_write.rs:654-746 | What a commit puts in LBA 0 is signed, marked once, and holds nothing stale |
| HybridMbr.LoneMarkerKept | src/gpt_write.rs:697-741 | Of a marker and one stale mirror the marker is kept as it was; alone it is made anew by the next commit, which differs unless it is the one made |
| MbrFormat.BareWritten | src/gpt_write.rs:433-463 | Over nothing, LBA 0 is zeros, the marker in the first entry and the signature |
| MbrFormat.FoundWritten | src/gpt_write.rs:654-746 | Over something, the boot code stays, and an entry that is no marker stays in its slot exactly if it is no volume or has the range of a partition |
| MbrFormat.MarkerWritten | src/gpt_write.rs:433-452 | The marker starts at sector 1 and reaches the last sector, or as far as 32 bits do |
| MbrFormat.ChsAddress | src/mbr.rs:157-171 | A CHS address is that sector in 1024 cylinders of 255 heads of 63 sectors, head first, then sector and cylinder, or is all ones past them |
| MbrTable.Parse | src/mbr.rs:257-311 | The list is the volumes of the four entries, in slot order |
| MbrFormat.EntryPlace | src/mbr.rs:257-311 | Entry i is the sixteen bytes from 446 + 16 i |
| MbrFormat.EntryParsed | src/mbr.rs:257-311 | Start and count are the numbers at bytes 8 and 12, the type is byte 4, and a volume is neither empty, a container nor a marker |
| MbrFormat.ClaimParsed | src/mbr.rs:365-390 | A kept entry claims the sectors its numbers say, unless it is a marker or has none |
| MbrTable.ReservedEntries | src/mbr.rs:365-390 | The list is the other entries that are not empty |
| MbrTable.VolumeIsListed | src/mbr.rs:257-311 | Every volume entry is in the list |
| MbrTable.VolumesFrom | src/mbr.rs:257-311 | Every listed volume is the entry of its slot |
| MbrTable.VolumesInOrder | src/mbr.rs:257-311 | The volumes are listed in order of slot |
| MbrTable.ReservedIsListed | src/mbr.rs:365-390 | Every other entry that is not empty is kept, with its bytes |
| MbrTable.ReservedFromTable | src/mbr.rs:365-390 | Every kept entry is the one in its slot, and no volume |
| MbrWriter.EntryRewritten | src/mbr.rs:541-585 | Reading a volume entry and writing it over itself gives the same bytes if and only if its status byte is 0x00 or 0x80 |
| MbrFormat.EntryWritten | src/mbr.rs:541-585 | A written entry has the partition's start, count, type and activity at their bytes, and the CHS bytes of the entry before it exactly if that was of the same sectors |
| MbrRoundTrip.WriteMbr | src/mbr.rs:470-590 | It succeeds exactly when the device is writable and the table acceptable; a refusal leaves every byte alone; a success changes the four entries and the signature only |
| MbrRoundTrip.NoEditWrite | src/mbr.rs:470-590 | Writing a probed table back with nothing edited leaves the device as it was if and only if its entries are canonical and it was signed |
| MbrRoundTrip.WrittenReadsBack | src/mbr.rs:257-311 | The volumes read from a written table are exactly the partitions written with a volume's type, each in its slot, and the kept entries that are volumes |
| MbrRoundTrip.AcceptedIsWriting | src/mbr.rs:470-590 | Every accepted write meets the conditions of `WrittenReadsBack` |
| MbrRoundTrip.HiddenType | src/mbr.rs:470-590 | A partition whose type is not a volume's is accepted, and whatever table was there, the one written shows no partition |
| MbrRoundTrip.StatusLost | src/mbr.rs:541-585 | For every status byte but 0x00 and 0x80 there is a disk that is accepted with nothing edited and that every such write changes |
| Editing.SoundGptAccepted | src/gpt_write.rs:333-363 | A sound GPT set that is not empty is one the writer accepts, unless a type is the unused one |
| Editing.SoundMbrAccepted | src/mbr.rs:470-502 | A sound MBR set that is not empty is one the writer accepts |
| Editing.UsableMbr | src/mutation.rs:475-481 | On an MBR disk every sector but the first that 32 bits can name is usable |
| Placement.OccupiedSpans | src/mutation.rs:537-552 | The ranges to stay out of are those of every partition but one, and those reserved entries claim |
| Placement.PlaceNew | src/mutation.rs:252-286 | With a hint the start is the first mebibyte at or past both the hint's byte and the first usable sector, and it is taken exactly when it is free; without one the start is the least that is free |
| PartitionEditor.PlanAdd | src/mutation.rs:220-327 | A partition can be added exactly when there is a slot, a type the table can record and a place; it is the least whole mebibytes of the length asked for, at that place, with the name, type and UUID asked for and no slot yet |
| PartitionEditor.GuidsRecorded | src/mutation.rs:51-64 | The EFI system and basic data types are recorded on a GPT by their GUIDs, with no attribute |
| PartitionEditor.LinuxGuidsRecorded | src/mutation.rs:51-64 | So are the Linux filesystem and swap types |
| PartitionEditor.AppleGuidsRecorded | src/mutation.rs:51-64 | And HFS+ and APFS |
| PartitionEditor.BytesRecorded | src/mutation.rs:65-81 | They are recorded on an MBR by their type bytes, not active; APFS has none |
| PartitionEditor.CustomRecorded | src/mutation.rs:51-81 | A GUID or a type byte given is recorded as it is, on a table of its own kind only |
| PartitionEditor.AddedKeeps | src/mutation.rs:220-327 | Adding keeps the set sound and the reported issues exact |
| PartitionEditor.MbrPlaceFits | src/mutation.rs:274-278 | The check against 32-bit sector numbers never refuses a place that is free |
| PartitionEditor.Refresh | src/mutation.rs:438-457 | Every overlap flag is set from the list as it stands, and nothing else changes |
| PartitionEditor.RemovedKeeps | src/mutation.rs:332-337 | Removing keeps the set sound and the reported issues exact |
| PartitionEditor.PlanResize | src/mutation.rs:343-375 | A length can be given exactly when it ends in the usable range clear of the other partitions and reserved ranges |
| PartitionEditor.ResizedKeeps | src/mutation.rs:343-375 | Resizing keeps the set sound and the reported issues exact |
| PartitionEditor.ProbedExact | src/gpt.rs:530-551 | What a GPT reports when it is read is exact, if its partitions' ends fit 64 bits |
| PartitionEditor.PartitionSet.EmptyGpt | src/mutation.rs:181-191 | An empty GPT set is sound and exact |
| PartitionEditor.PartitionSet.EmptyMbr | src/mutation.rs:194-204 | An empty MBR set is sound |
| PartitionEditor.PartitionSet.Add | src/mutation.rs:220-327 | A refusal changes nothing; a success appends the planned partition |
| PartitionEditor.PartitionSet.Remove | src/mutation.rs:332-337 | Exactly the partition named goes, or none when nothing is named |
| PartitionEditor.PartitionSet.Resize | src/mutation.rs:343-375 | Exactly the partition named gets the least whole mebibytes of the length, or nothing changes |
| PartitionEditor.PartitionSet.CommitMut | src/mutation.rs:397-422 | The table is on the disk and its slots are recorded, or neither disk nor set changes; a sound set that is not empty is never refused on a writable device of its size |
| PartitionEditor.PartitionSet.Run | src/mutation.rs:208-403 | After any run of adds, removals, resizes and commits, refused ones included, the set is sound and its issues exact; each partition that was there at the start and still is has kept its order, start, type, name, UUID and the slot it had; without a removal none is gone |
| PartitionEditor.CommittedProbes | src/probe.rs:296-341 | What a GPT commit wrote is what a probe finds |
| PartitionEditor.SurvivorsStay | src/mutation.rs:389-403 | After a commit and whatever edits and commits follow, the next commit writes each partition that is left to the slot it had |
| PartitionEditor.PartitionSet.CommitEditCommit | src/mutation.rs:389-403 | The same of the set itself: a commit, any run of edits, and a commit |
| EditingSessions.FromProbe | src/mutation.rs:135-178 | A set can be read from a disk exactly when a table is probed on it and, on a GPT with longer entries, no two entries share a UUID and differ in their tails; it is then exactly the partitions probed, the shape, GUID and tails of the header, and the entries of LBA 0 the probe left out, with exact issues if its partitions' ends fit 64 bits |
| EditingSessions.LoadsExactly | src/mutation.rs:135-178 | A disk that holds a planned GPT can be read, and what is read is exactly the plan's: its partitions as they read, its GUID, its shape with the usable range stated, and its tails |
| EditingSessions.ReloadedSound | src/mutation.rs:135-178 | The partitions a reader finds of a sound GPT set that was committed are sound, in the shape the disk now declares |
| EditingSessions.NextSession | src/mutation.rs:135-422 | After a successful GPT commit the disk can be read, and the set read continues the one committed: its plan exactly, and sound if it was |
| EditingSessions.Sessions | src/mutation.rs:135-422 | Any number of sessions on one GPT disk, each any edits and a commit and starting with what it reads there, keep the set sound |
| GptRecommit.EntriesAgain | src/gpt_write.rs:362-420 | The entries of a set read from a disk are written as they were if and only if nothing follows the first NUL of a name |
| GptRecommit.RecommitExact | src/gpt_write.rs:325-495 | A set read from a disk that holds a planned GPT, committed with nothing edited, leaves every byte alone if and only if its names have nothing after a NUL and LBA 0 is signed and stable |
| GptRecommit.TwiceExact | src/gpt_write.rs:325-495 | After a commit, reading the disk and committing with nothing edited leaves every byte alone if and only if its names have nothing after a NUL and a marker that stands alone is the one a commit makes |

## Left out

- src/capi.rs and include/: the C interface, its handles and its error codes.
- src/sniff.rs and src/container.rs: magic-byte tests and their dispatch.
- CRC32, CRC32C and the md and LVM checksums: any function of bytes; a metadata block with a wrong checksum is one that is not there.
- Decoding of md superblocks, LVM labels and metadata text, dm-raid and dm-thin superblocks: the model starts from decoded records, and the LVM mapper is given what each superblock decodes to.
- Device errors, short reads and flushing: a read or write in range succeeds, and a missing member is the only fault of an array.
- A device that states a size of 0: a device's size is the number of its bytes.
- Random UUIDs: `Add` takes the UUID as an argument.
- Error messages: refusals are told apart only where the code branches on them.
- `commit`, which does not record slots: the same write as `CommitMut` without its last step.
- The three bits of `issues` are a record of three flags, and an md superblock's UUID is a number.
- Raid0Zones.BuildZones: sizes are unbounded numbers; members that together pass 2^64 bytes would wrap in the code.
- MdAssembly.AssembleRaid0: the same, of the array's size.
- LvmReader.ReadAt: that the volume holds its bytes is a precondition, which `HoldsExactly` says when a resolved volume meets; a read of one that does not, with images that disagree or damaged thin metadata, is not described.
- LvmReader.ReadRuns: a nested volume is read whole and then served from, where the code reads each range as it is asked for; the bytes are the same, and the order and number of device reads are not modelled. Its precondition is that of `ReadAt`.
- LvmMapper.MapRaid and LvmMapper.MapThin: what a metadata sub-volume's first bytes decode to is given with the group, by its name.
- ThinLookup.PartitionPoint: on keys that are not sorted it is one bisection, which the standard library's need not be.
- EditingSessions.Sessions: stated of GPT disks; an MBR written over a disk that still has a GPT signature is probed as a GPT.
- LvmMapper.MapVolume: names are looked up in a list, and extents are unbounded numbers except where the code's products and sums wrap.
- MdAssembly.PlaceMembers: devices come with their decoded superblocks.
- Probing: header and sector reads are functions of the disk's bytes, as they change nothing; the loops are methods.
- Reading a GPT whose backup disagrees: the model decides that it does, not for which of the five reasons.
