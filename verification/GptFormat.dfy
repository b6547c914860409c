/** The GPT byte by byte: where the fields of its headers and entries are, read and written, at their own
    offsets, and where on the disk a commit puts them. */
module GptFormat {
  import opened Bytes
  import opened GptCommit
  import opened GptEntries
  import opened GptGeometry
  import opened GptHeader
  import opened GptTable
  import opened GptWriter
  import MbrTable
  import opened PartitionTable
  import opened Probing
  import opened Sizes
  import opened Slots
  import opened Spans
  import opened Utf16
  import opened Wrappers

  // ----- headers

  /** The numbers and the GUID of a header, each at its offset. */
  predicate HeaderAt(s: seq<byte>, h: Header)
    requires |s| >= 92
  {
    && Num8(s, 24) == h.myLba && Num8(s, 32) == h.alternateLba && Num8(s, 40) == h.firstUsable
    && Num8(s, 48) == h.lastUsable && s[56..72] == h.diskGuid && Num8(s, 72) == h.entryLba
    && Num4(s, 80) == h.numEntries && Num4(s, 84) == h.entrySize && Num4(s, 88) == h.entriesCrc
  }

  /** A header that is read says what is at those offsets. */
  lemma {:induction false} HeaderParsed(sector: seq<byte>, crc: Crc)
    requires ParseHeader(sector, crc).Ok?
    ensures |sector| >= 512 && sector[..8] == [0x45, 0x46, 0x49, 0x20, 0x50, 0x41, 0x52, 0x54]
    ensures HeaderAt(sector, ParseHeader(sector, crc).value)
  {
    HeaderNumbers(sector);
    HeaderSmallNumbers(sector);
  }

  /** A header that is written has "EFI PART", revision 1.0, its size of 92, a checksum of those bytes taken with
      the checksum's own four zero, the fields, and nothing after them. */
  lemma {:induction false} HeaderWritten(h: Header, crc: Crc)
    ensures var s := HeaderSector(h, crc);
      && |s| == 512 && s[..8] == [0x45, 0x46, 0x49, 0x20, 0x50, 0x41, 0x52, 0x54]
      && Num4(s, 8) == 0x1_0000 && Num4(s, 12) == 92 && Num4(s, 16) == crc(s[..16] + [0, 0, 0, 0] + s[20..92])
      && HeaderAt(s, h) && s[92..] == Zeros(420)
  {
    var s := HeaderSector(h, crc);
    HeaderSlice(h, crc, 0);
    HeaderSlice(h, crc, 9);
    HeaderPlaces(h, crc);
    HeaderCounts(h, crc);
    HeaderChecks(h, crc);
    HeaderNumbers(s);
    HeaderSmallNumbers(s);
    assert Put(s[..92], 16, Zeros(4)) == s[..16] + [0, 0, 0, 0] + s[20..92];
    HeaderOffsets(h, ToLE(HeaderCrc32(h, crc), 4));
  }

  lemma {:induction false} HeaderNumbers(s: seq<byte>)
    requires |s| >= 92
    ensures Field(s, 24, 8) == Num8(s, 24) && Field(s, 32, 8) == Num8(s, 32) && Field(s, 40, 8) == Num8(s, 40)
    ensures Field(s, 48, 8) == Num8(s, 48) && Field(s, 72, 8) == Num8(s, 72)
  {
    NumRead(s, 24, 8);
    NumRead(s, 32, 8);
    NumRead(s, 40, 8);
    NumRead(s, 48, 8);
    NumRead(s, 72, 8);
  }

  lemma {:induction false} HeaderSmallNumbers(s: seq<byte>)
    requires |s| >= 92
    ensures Field(s, 8, 4) == Num4(s, 8) && Field(s, 12, 4) == Num4(s, 12) && Field(s, 16, 4) == Num4(s, 16)
    ensures Field(s, 80, 4) == Num4(s, 80) && Field(s, 84, 4) == Num4(s, 84) && Field(s, 88, 4) == Num4(s, 88)
  {
    NumRead(s, 8, 4);
    NumRead(s, 12, 4);
    NumRead(s, 16, 4);
    NumRead(s, 80, 4);
    NumRead(s, 84, 4);
    NumRead(s, 88, 4);
  }

  // ----- entries

  /** A used entry that is read: type at 0, UUID at 16, first and last sector at 32 and 40, attributes at 48. */
  lemma {:induction false} EntryParsed(e: Image, slot: u32, deviceSize: u64)
    requires !IsUnused(e) && !IsBad(e)
    ensures e[..16] != Zeros(16)
    ensures var p := PartOf(e, slot, deviceSize);
      && p.start == Num8(e, 32) * 512 && p.start + p.length == (Num8(e, 40) + 1) * 512
      && p.kind == GptKind(e[..16], Num8(e, 48)) && p.uuid == Some(e[16..32]) && p.slot == Some(slot)
  {
    NumRead(e, 32, 8);
    NumRead(e, 40, 8);
    NumRead(e, 48, 8);
  }

  /** A written one, the name in two-byte units from 56 on and zeros after it, and then the tail. */
  lemma {:induction false} EntryWritten(p: Partition, usable: Span, size: nat, tails: Tails)
    requires ValidEntry(p, usable) && p.uuid.Some? && size >= 128
    ensures var e := EntryFor(p, size, tails);
      && e[..16] == p.kind.typeGuid && e[16..32] == p.uuid.value
      && Num8(e, 32) * 512 == p.start && (Num8(e, 40) + 1) * 512 == p.start + p.length
      && Num8(e, 48) == p.kind.attributes && e[128..] == TailFor(tails, p.uuid.value, size - 128)
  {
    var e, span := EntryFor(p, size, tails), SectorSpan(p).value;
    EntryReadBack(p.kind.typeGuid, p.uuid.value, span.first, span.last, p.kind.attributes,
                  NameField(Encode(StoredName(p.name))), TailFor(tails, p.uuid.value, size - STANDARD_BYTES));
    NumRead(e, 32, 8);
    NumRead(e, 40, 8);
    NumRead(e, 48, 8);
    AlignedSpan(p);
  }

  lemma {:induction false} UnitAt(u: seq<u16>, i: nat)
    requires i < |u|
    ensures Num2(UnitBytes(u), 2 * i) == u[i]
  {
    var b := UnitBytes(u);
    if i == 0 {
      Widths();
      ToFromLE(u[0], 2);
      NumRead(b, 0, 2);
      assert b[0..2] == ToLE(u[0], 2);
    } else {
      UnitAt(u[1..], i - 1);
      assert b[2..] == UnitBytes(u[1..]);
      assert b[2 * i] == b[2..][2 * (i - 1)] && b[2 * i + 1] == b[2..][2 * (i - 1) + 1];
    }
  }

  /** Unit `i` of the name is at byte 56 + 2 i, low byte first. */
  lemma {:induction false} NameWritten(p: Partition, usable: Span, size: nat, tails: Tails, i: nat)
    requires ValidEntry(p, usable) && p.uuid.Some? && size >= 128 && i < 36
    ensures var (e, units) := (EntryFor(p, size, tails), Encode(StoredName(p.name)));
      Num2(e, 56 + 2 * i) == if i < |units| then units[i] else 0
  {
    var e, span, units := EntryFor(p, size, tails), SectorSpan(p).value, Encode(StoredName(p.name));
    EntryReadBack(p.kind.typeGuid, p.uuid.value, span.first, span.last, p.kind.attributes, NameField(units),
                  TailFor(tails, p.uuid.value, size - STANDARD_BYTES));
    UnitAt(units + NoUnits(NAME_UNITS - |units|), i);
    assert e[56 + 2 * i] == e[56..128][2 * i] && e[56 + 2 * i + 1] == e[56..128][2 * i + 1];
  }

  // ----- the disk

  /** The header in sector `my` of a disk a commit was written to: where it and the other are, the usable range,
      the GUID, where its own array is, the table's shape and the checksum of its entries. */
  ghost predicate HeaderOf(disk: Disk, plan: Plan, my: int, other: int, entryLba: int, crc: Crc)
    requires Good(plan, |disk|)
  {
    var usable := plan.g.UsableRange(|disk| / 512).value;
    && 0 <= my && my * 512 + 512 <= |disk|
    && var s := disk[my * 512..my * 512 + 512];
       && s[..8] == [0x45, 0x46, 0x49, 0x20, 0x50, 0x41, 0x52, 0x54]
       && Num8(s, 24) == my && Num8(s, 32) == other && Num8(s, 40) == usable.first && Num8(s, 48) == usable.last
       && s[56..72] == plan.diskGuid && Num8(s, 72) == entryLba && Num4(s, 80) == plan.g.numEntries
       && Num4(s, 84) == plan.g.entrySize && Num4(s, 88) == crc(Flatten(EntriesOf(plan)))
  }

  lemma {:induction false} CopySays(disk: Disk, plan: Plan, h: Header, crc: Crc)
    requires Good(plan, |disk|) && CopyOnDisk(disk, plan, h, crc)
    requires UsableOf(h) == plan.g.UsableRange(|disk| / SECTOR).value && h.diskGuid == plan.diskGuid
    requires h.numEntries == plan.g.numEntries && h.entrySize == plan.g.entrySize
    requires h.entriesCrc == crc(Flatten(EntriesOf(plan)))
    ensures HeaderOf(disk, plan, h.myLba, h.alternateLba, h.entryLba, crc)
  {
    HeaderHeld(disk, h.myLba * SECTOR, h, crc);
  }

  /** The primary is in sector 1 and names the last as the other's. */
  lemma {:induction false} PrimaryOnDisk(disk: Disk, plan: Plan, crc: Crc)
    requires OnDisk(disk, plan, crc)
    ensures HeaderOf(disk, plan, 1, |disk| / 512 - 1, plan.g.entryLba, crc)
  {
    PlacesFit(plan.g, |disk|);
    CopySays(disk, plan, PrimaryHeader(plan, |disk|, crc(Flatten(EntriesOf(plan)))), crc);
  }

  /** The backup is in the last and names sector 1, its own array just before it. */
  lemma {:induction false} BackupOnDisk(disk: Disk, plan: Plan, crc: Crc)
    requires OnDisk(disk, plan, crc)
    ensures HeaderOf(disk, plan, |disk| / 512 - 1, 1, |disk| / 512 - 1 - plan.g.ArraySectors(), crc)
  {
    PlacesFit(plan.g, |disk|);
    CopySays(disk, plan, BackupHeader(plan, |disk|, crc(Flatten(EntriesOf(plan)))), crc);
  }

  lemma {:induction false} HeaderHeld(disk: Disk, at: nat, h: Header, crc: Crc)
    requires Holds(disk, at, HeaderSector(h, crc))
    ensures at + 512 <= |disk| && HeaderAt(disk[at..at + 512], h)
    ensures disk[at..at + 512][..8] == [0x45, 0x46, 0x49, 0x20, 0x50, 0x41, 0x52, 0x54]
  {
    HeaderWritten(h, crc);
  }

  /** These bytes are entry number `slot` of an array of entries that long from sector `lba` on. */
  predicate EntryIn(disk: Disk, lba: int, slot: nat, e: seq<byte>) {
    && 0 <= lba && 0 <= slot * |e|
    && var at := lba * 512 + slot * |e|;
       at + |e| <= |disk| && disk[at..at + |e|] == e
  }

  lemma {:induction false} EntryOfCopy(disk: Disk, plan: Plan, h: Header, crc: Crc, j: nat)
    requires Good(plan, |disk|) && CopyOnDisk(disk, plan, h, crc) && j < |plan.parts|
    ensures EntryIn(disk, h.entryLba, plan.slots[j], EntryFor(plan.parts[j], plan.g.entrySize, plan.tails))
  {
    EntryOfPart(plan.parts, plan.slots, plan.g.numEntries, plan.g.entrySize, plan.tails, j);
    HeldEntry(disk, h.entryLba * SECTOR, EntriesOf(plan), plan.g.entrySize, plan.slots[j]);
  }

  /** The entry of each partition is where its slot is in both arrays: the one from the shape's sector on, */
  lemma {:induction false} EntryOnDisk(disk: Disk, plan: Plan, crc: Crc, j: nat)
    requires OnDisk(disk, plan, crc) && j < |plan.parts|
    ensures EntryIn(disk, plan.g.entryLba, plan.slots[j], EntryFor(plan.parts[j], plan.g.entrySize, plan.tails))
  {
    EntryOfCopy(disk, plan, PrimaryHeader(plan, |disk|, crc(Flatten(EntriesOf(plan)))), crc, j);
  }

  /** and the one that ends before the last sector. */
  lemma {:induction false} EntryInBackup(disk: Disk, plan: Plan, crc: Crc, j: nat)
    requires OnDisk(disk, plan, crc) && j < |plan.parts|
    ensures EntryIn(disk, |disk| / 512 - 1 - plan.g.ArraySectors(), plan.slots[j],
                    EntryFor(plan.parts[j], plan.g.entrySize, plan.tails))
  {
    EntryOfCopy(disk, plan, BackupHeader(plan, |disk|, crc(Flatten(EntriesOf(plan)))), crc, j);
  }

  lemma {:induction false} HeldEntry(disk: Disk, at: nat, entries: EntryList, size: nat, s: nat)
    requires Holds(disk, at, Flatten(entries)) && Uniform(entries, size) && size >= STANDARD_BYTES && s < |entries|
    ensures 0 <= s * size && at + s * size + size <= |disk|
    ensures disk[at + s * size..at + s * size + size] == entries[s]
  {
    CutFlatten(entries, size);
    SliceBounds(|entries|, size, s);
    assert CutOne(Flatten(entries), |entries|, size, s) == entries[s];
    SliceWithin(disk, at, Flatten(entries), s * size, size);
  }

  lemma {:induction false} SliceWithin(disk: Disk, at: nat, data: seq<byte>, o: nat, len: nat)
    requires Holds(disk, at, data) && o + len <= |data|
    ensures at + o + len <= |disk| && disk[at + o..at + o + len] == data[o..o + len]
  {
    forall k | at + o <= k < at + o + len ensures disk[k] == data[k - at] {
      assert disk[at..at + |data|][k - at] == data[k - at];
    }
  }

  /** The first sector of the disk is the LBA 0 that was made for it. */
  lemma {:induction false} Lba0OnDisk(before: Disk, after: seq<byte>, plan: Plan, lba0: Result<MbrTable.Sector>,
                                       crc: Crc)
    requires WrittenTo(before, after, plan, lba0, crc)
    ensures |after| >= 512 && after[..512] == lba0.value
  {
    WriteLands(before, plan, lba0.value, crc, 0);
  }

  // ----- the usable range

  /** Unless a header states less, the usable range is all there is between the two arrays: it starts with the
      first whole sector after one and ends with the last before the other, which ends with the sector before the
      last. */
  lemma {:induction false} UsableLargest(g: Geometry, total: nat)
    requires g.declared.None? && g.UsableRange(total).Ok?
    ensures var (u, bytes) := (g.UsableRange(total).value, g.numEntries * g.entrySize);
      && (u.first - 1) * 512 < g.entryLba * 512 + bytes <= u.first * 512 && u.first <= u.last
      && (u.last + 1) * 512 + bytes <= (total - 1) * 512 < (u.last + 2) * 512 + bytes
  {
    var sectors := g.ArraySectors();
    assert sectors * 512 >= g.ArrayBytes() > (sectors - 1) * 512;
    assert g.UsableRange(total).value == Span(g.entryLba + sectors, total - 2 - sectors);
  }

  /** A device is too small only when no sector is between them: none after the entry array has room after it for
      another array and a header. */
  lemma {:induction false} UsableNone(g: Geometry, total: nat, a: int)
    requires g.ShapeOk() && g.UsableRange(total) == Err(DeviceTooSmall)
    ensures var bytes := g.numEntries * g.entrySize;
      !(g.entryLba * 512 + bytes <= a * 512 && (a + 1) * 512 + bytes <= (total - 1) * 512)
  {
    assert g.ArrayBytes() == g.numEntries * g.entrySize;
  }
}
