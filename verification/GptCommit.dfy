/** A GPT commit: the table written, and the same table probed. */
module GptCommit {
  import opened BlockDevice
  import opened Bytes
  import opened GptEntries
  import opened GptGeometry
  import opened GptHeader
  import opened GptRoundTrip
  import opened GptTable
  import opened GptWriter
  import opened HybridMbr
  import opened MbrTable
  import opened PartitionTable
  import opened Probing
  import opened Sizes
  import opened Slots
  import opened Spans
  import opened Wrappers

  // ----- reading one copy

  lemma {:induction false} EntriesFound(disk: Disk, h: Header, entries: EntryList, crc: Crc)
    requires EntrySizeOk(h.entrySize) && h.numEntries <= MAX_ENTRIES
    requires |entries| == h.numEntries && Uniform(entries, h.entrySize) && h.entriesCrc == crc(Flatten(entries))
    requires Holds(disk, h.entryLba * SECTOR, Flatten(entries))
    ensures ReadEntries(disk, h, crc) == Ok(entries)
  {
    CutFlatten(entries, h.entrySize);
  }

  /** A copy of a table whose header and entries are in place reads as its entries. */
  lemma {:induction false} CopyReadBack(disk: Disk, lba: nat, h: Header, entries: EntryList, crc: Crc)
    requires EntrySizeOk(h.entrySize) && h.numEntries <= MAX_ENTRIES
    requires |entries| == h.numEntries && Uniform(entries, h.entrySize) && h.entriesCrc == crc(Flatten(entries))
    requires Holds(disk, h.entryLba * SECTOR, Flatten(entries))
    requires h.myLba == lba && Holds(disk, lba * SECTOR, HeaderSector(h, crc))
    ensures ParseCopy(disk, lba, crc) == EntriesRead(entries, UsableOf(h), |disk|)
  {
    HeaderReadBack(h, crc);
    EntriesFound(disk, h, entries, crc);
  }

  // ----- the write

  /** What goes onto the disk: partitions and their slots, in a shape. */
  datatype Plan = Plan(parts: seq<Partition>, slots: seq<nat>, g: Geometry, diskGuid: Guid, tails: Tails)

  /** A plan for a device of `size` bytes. */
  ghost predicate Good(plan: Plan, size: nat) {
    && size < U64 && plan.g.UsableRange(size / SECTOR).Ok?
    && Planned(plan.parts, plan.slots, plan.g.numEntries, plan.g.UsableRange(size / SECTOR).value)
  }

  function EntriesOf(plan: Plan): (r: EntryList)
    requires Placeable(plan.parts, plan.slots, plan.g.numEntries) && plan.g.ShapeOk()
    ensures |r| == plan.g.numEntries && Uniform(r, plan.g.entrySize)
  {
    NewEntries(plan.parts, plan.slots, plan.g.numEntries, plan.g.entrySize, plan.tails)
  }

  function HeaderFor(plan: Plan, usable: Span, my: int, alternate: int, entryLba: int, entriesCrc: u32): Header
    requires 0 <= usable.first < U64 && 0 <= usable.last < U64 && 0 <= my < U64 && 0 <= alternate < U64
    requires 0 <= entryLba < U64
  {
    Header(my, alternate, usable.first, usable.last, plan.diskGuid, entryLba, plan.g.numEntries, plan.g.entrySize,
           entriesCrc)
  }

  lemma {:induction false} PlacesFit(g: Geometry, size: nat)
    requires g.UsableRange(size / SECTOR).Ok? && size < U64
    ensures var total, usable := size / SECTOR, g.UsableRange(size / SECTOR).value;
      0 <= usable.first <= usable.last < total < U64 && 0 <= total - 1 - g.ArraySectors() && 1 < total
  {
    ByteRegions(g, size);
  }

  function PrimaryHeader(plan: Plan, size: nat, entriesCrc: u32): (h: Header)
    requires plan.g.UsableRange(size / SECTOR).Ok? && size < U64
    ensures h.myLba == 1 && h.entryLba == plan.g.entryLba
  {
    PlacesFit(plan.g, size);
    HeaderFor(plan, plan.g.UsableRange(size / SECTOR).value, 1, size / SECTOR - 1, plan.g.entryLba, entriesCrc)
  }

  function BackupHeader(plan: Plan, size: nat, entriesCrc: u32): (h: Header)
    requires plan.g.UsableRange(size / SECTOR).Ok? && size < U64
    ensures h.myLba == size / SECTOR - 1 && h.entryLba == size / SECTOR - 1 - plan.g.ArraySectors()
  {
    PlacesFit(plan.g, size);
    var last := size / SECTOR - 1;
    HeaderFor(plan, plan.g.UsableRange(size / SECTOR).value, last, 1, last - plan.g.ArraySectors(), entriesCrc)
  }

  function WritesOf(plan: Plan, size: nat, lba0: Sector, crc: Crc): seq<Write>
    requires plan.g.UsableRange(size / SECTOR).Ok? && size < U64 && Placeable(plan.parts, plan.slots, plan.g.numEntries)
  {
    var data := Flatten(EntriesOf(plan));
    TableWrites(plan.g, size, lba0, HeaderSector(PrimaryHeader(plan, size, crc(data)), crc), data,
                HeaderSector(BackupHeader(plan, size, crc(data)), crc))
  }

  lemma {:induction false} WritesApart(plan: Plan, size: nat, lba0: Sector, crc: Crc)
    requires Good(plan, size)
    ensures var writes, usable := WritesOf(plan, size, lba0, crc), plan.g.UsableRange(size / SECTOR).value;
      && InBounds(writes, size) && Separate(writes)
      && forall i :: 0 <= i < |writes| ==>
           Clears(writes[i], usable.first * SECTOR, (usable.last + 1 - usable.first) * SECTOR)
  {
    var data := Flatten(EntriesOf(plan));
    UniformOffsets(EntriesOf(plan), plan.g.entrySize);
    TableWritesSeparate(plan.g, size, lba0, HeaderSector(PrimaryHeader(plan, size, crc(data)), crc), data,
                        HeaderSector(BackupHeader(plan, size, crc(data)), crc));
  }

  /** The disk after the table is written over it. */
  function Written(disk: Disk, plan: Plan, lba0: Sector, crc: Crc): (r: Disk)
    requires plan.g.UsableRange(|disk| / SECTOR).Ok? && Placeable(plan.parts, plan.slots, plan.g.numEntries)
    requires InBounds(WritesOf(plan, |disk|, lba0, crc), |disk|)
    ensures |r| == |disk|
  {
    Apply(disk, WritesOf(plan, |disk|, lba0, crc))
  }

  /** Part `i` of the table is where it was put. */
  lemma {:induction false} WriteLands(disk: Disk, plan: Plan, lba0: Sector, crc: Crc, i: nat)
    requires Good(plan, |disk|) && i < 5
    ensures InBounds(WritesOf(plan, |disk|, lba0, crc), |disk|)
    ensures var w := WritesOf(plan, |disk|, lba0, crc)[i]; Holds(Written(disk, plan, lba0, crc), w.at, w.bytes)
  {
    WritesApart(plan, |disk|, lba0, crc);
    ApplyHolds(disk, WritesOf(plan, |disk|, lba0, crc), i);
  }

  /** The room for partitions is as it was before the write. */
  lemma {:induction false} RoomKept(disk: Disk, plan: Plan, lba0: Sector, crc: Crc, lo: int, hi: int)
    requires Good(plan, |disk|)
    requires lo == plan.g.UsableRange(|disk| / SECTOR).value.first * SECTOR
    requires hi == (plan.g.UsableRange(|disk| / SECTOR).value.last + 1) * SECTOR
    ensures InBounds(WritesOf(plan, |disk|, lba0, crc), |disk|)
    ensures 0 <= lo <= hi <= |disk| && Written(disk, plan, lba0, crc)[lo..hi] == disk[lo..hi]
  {
    var data := Flatten(EntriesOf(plan));
    UniformOffsets(EntriesOf(plan), plan.g.entrySize);
    TableWritesKeepRoom(disk, plan.g, lba0, HeaderSector(PrimaryHeader(plan, |disk|, crc(data)), crc), data,
                        HeaderSector(BackupHeader(plan, |disk|, crc(data)), crc), lo, hi);
  }

  /** The partitions a planned table will be read as. */
  function Expected(plan: Plan, size: u64): seq<Partition>
    requires Placeable(plan.parts, plan.slots, plan.g.numEntries) && plan.g.numEntries <= MAX_ENTRIES
  {
    Present(SlotTable(plan.parts, plan.slots, plan.g.numEntries, size))
  }

  /** Those are the partitions written, each as it reads from its slot, and nothing else. */
  lemma {:induction false} ExpectedMembers(plan: Plan, size: u64, p: Partition)
    requires Placeable(plan.parts, plan.slots, plan.g.numEntries) && plan.g.numEntries <= MAX_ENTRIES
    requires Distinct(plan.slots)
    ensures p in Expected(plan, size) <==>
      exists j: nat :: j < |plan.parts| && p == AsRead(plan.parts[j], plan.slots[j], size)
  {
    var n := plan.g.numEntries;
    var table := SlotTable(plan.parts, plan.slots, n, size);
    PresentMembers(table, p);
    if i: nat :| i < n && table[i] == Some(p) {
      if i !in plan.slots { SlotOfNone(plan.parts, plan.slots, n, size, i); }
      var j: nat :| j < |plan.slots| && plan.slots[j] == i;
      SlotOfPart(plan.parts, plan.slots, n, size, j);
    }
    if j: nat :| j < |plan.parts| && p == AsRead(plan.parts[j], plan.slots[j], size) {
      SlotOfPart(plan.parts, plan.slots, n, size, j);
    }
  }

  lemma {:induction false} PresentMembers(table: seq<Option<Partition>>, p: Partition)
    ensures p in Present(table) <==> exists i: nat :: i < |table| && table[i] == Some(p)
  {
    if table != [] {
      var k := |table| - 1;
      PresentMembers(table[..k], p);
      if i: nat :| i < k && table[i] == Some(p) { assert table[..k][i] == Some(p); }
      if i: nat :| i < k && table[..k][i] == Some(p) { assert table[i] == Some(p); }
    }
  }

  lemma {:induction false} EntriesExpected(plan: Plan, size: nat)
    requires Good(plan, size)
    ensures EntriesRead(EntriesOf(plan), plan.g.UsableRange(size / SECTOR).value, size) == Ok(Expected(plan, size))
  {
    EntriesReadBack(plan.parts, plan.slots, plan.g.numEntries, plan.g.entrySize, plan.tails,
                    plan.g.UsableRange(size / SECTOR).value, size);
  }

  /** Both copies of a planned table are on the disk. */
  ghost predicate OnDisk(disk: Disk, plan: Plan, crc: Crc) {
    && Good(plan, |disk|)
    && CopyOnDisk(disk, plan, PrimaryHeader(plan, |disk|, crc(Flatten(EntriesOf(plan)))), crc)
    && CopyOnDisk(disk, plan, BackupHeader(plan, |disk|, crc(Flatten(EntriesOf(plan)))), crc)
  }

  /** A header and the entries it names. */
  ghost predicate CopyOnDisk(disk: Disk, plan: Plan, h: Header, crc: Crc)
    requires Good(plan, |disk|)
  {
    Holds(disk, h.myLba * SECTOR, HeaderSector(h, crc)) && Holds(disk, h.entryLba * SECTOR, Flatten(EntriesOf(plan)))
  }

  lemma {:induction false} WrittenOnDisk(disk: Disk, plan: Plan, lba0: Sector, crc: Crc)
    requires Good(plan, |disk|)
    ensures InBounds(WritesOf(plan, |disk|, lba0, crc), |disk|)
    ensures OnDisk(Written(disk, plan, lba0, crc), plan, crc)
  {
    PrimaryLands(disk, plan, lba0, crc);
    BackupLands(disk, plan, lba0, crc);
  }

  lemma {:induction false} PrimaryLands(disk: Disk, plan: Plan, lba0: Sector, crc: Crc)
    requires Good(plan, |disk|)
    ensures InBounds(WritesOf(plan, |disk|, lba0, crc), |disk|)
    ensures CopyOnDisk(Written(disk, plan, lba0, crc), plan,
                       PrimaryHeader(plan, |disk|, crc(Flatten(EntriesOf(plan)))), crc)
  {
    WriteLands(disk, plan, lba0, crc, 1);
    WriteLands(disk, plan, lba0, crc, 2);
  }

  lemma {:induction false} BackupLands(disk: Disk, plan: Plan, lba0: Sector, crc: Crc)
    requires Good(plan, |disk|)
    ensures InBounds(WritesOf(plan, |disk|, lba0, crc), |disk|)
    ensures CopyOnDisk(Written(disk, plan, lba0, crc), plan,
                       BackupHeader(plan, |disk|, crc(Flatten(EntriesOf(plan)))), crc)
  {
    WriteLands(disk, plan, lba0, crc, 3);
    WriteLands(disk, plan, lba0, crc, 4);
  }

  lemma {:induction false} CopyReads(disk: Disk, plan: Plan, h: Header, crc: Crc)
    requires Good(plan, |disk|) && CopyOnDisk(disk, plan, h, crc)
    requires h.entrySize == plan.g.entrySize && h.numEntries == plan.g.numEntries
    requires UsableOf(h) == plan.g.UsableRange(|disk| / SECTOR).value && h.entriesCrc == crc(Flatten(EntriesOf(plan)))
    ensures ParseCopy(disk, h.myLba, crc) == Ok(Expected(plan, |disk|))
  {
    CopyReadBack(disk, h.myLba, h, EntriesOf(plan), crc);
    EntriesExpected(plan, |disk|);
  }

  lemma {:induction false} PrimaryReads(disk: Disk, plan: Plan, crc: Crc)
    requires OnDisk(disk, plan, crc)
    ensures ParseCopy(disk, 1, crc) == Ok(Expected(plan, |disk|))
  {
    CopyReads(disk, plan, PrimaryHeader(plan, |disk|, crc(Flatten(EntriesOf(plan)))), crc);
  }

  lemma {:induction false} BackupReads(disk: Disk, plan: Plan, crc: Crc)
    requires OnDisk(disk, plan, crc)
    ensures ParseBackup(disk, crc) == Ok(Expected(plan, |disk|))
  {
    BackupAlone(disk, plan, crc);
  }

  lemma {:induction false} SignatureThere(disk: Disk, plan: Plan, crc: Crc)
    requires OnDisk(disk, plan, crc)
    ensures 2 * SECTOR <= |disk| && disk[SECTOR..2 * SECTOR][..8] == SIGNATURE
  {
    HeaderSlice(PrimaryHeader(plan, |disk|, crc(Flatten(EntriesOf(plan)))), crc, 0);
  }

  /** Probing a disk that holds a planned table finds a GPT whose primary copy its backup agrees
      with, holding the partitions in slot order. */
  lemma {:induction false} ProbeOnDisk(disk: Disk, plan: Plan, crc: Crc)
    requires OnDisk(disk, plan, crc)
    ensures Probe(disk, true, crc) == Ok(Probed(Gpt, Expected(plan, |disk|), Primary))
  {
    PrimaryReads(disk, plan, crc);
    BackupReads(disk, plan, crc);
    SignatureThere(disk, plan, crc);
    ProbeFound(disk, Expected(plan, |disk|), crc);
  }

  lemma {:induction false} ProbeFound(disk: Disk, parts: seq<Partition>, crc: Crc)
    requires 2 * SECTOR <= |disk| && disk[SECTOR..2 * SECTOR][..8] == SIGNATURE
    requires ParseCopy(disk, 1, crc) == Ok(parts) && ParseBackup(disk, crc) == Ok(parts)
    ensures Probe(disk, true, crc) == Ok(Probed(Gpt, parts, Primary))
  {
    assert BackupAgrees(disk, parts, crc);
  }

  /** Probing a written table gives back what was written. */
  lemma {:induction false} ProbeWritten(disk: Disk, plan: Plan, lba0: Sector, crc: Crc)
    requires Good(plan, |disk|)
    ensures InBounds(WritesOf(plan, |disk|, lba0, crc), |disk|)
    ensures Probe(Written(disk, plan, lba0, crc), true, crc) == Ok(Probed(Gpt, Expected(plan, |disk|), Primary))
  {
    WrittenOnDisk(disk, plan, lba0, crc);
    ProbeOnDisk(Written(disk, plan, lba0, crc), plan, crc);
  }

  /** Whatever has happened to the primary copy, as long as the disk still says it has a GPT and the
      backup copy is there, a probe that may consult it finds the table written, and says where
      it found it. */
  lemma {:induction false} DamagedPrimaryRecovers(disk: Disk, plan: Plan, crc: Crc)
    requires Good(plan, |disk|)
    requires CopyOnDisk(disk, plan, BackupHeader(plan, |disk|, crc(Flatten(EntriesOf(plan)))), crc)
    requires ParseCopy(disk, 1, crc).Err?
    requires 2 * SECTOR <= |disk|
    requires
      || disk[SECTOR..2 * SECTOR][..8] == SIGNATURE
      || (disk[510..512] == [0x55, 0xAA] && IsProtective(TableOf(disk[..SECTOR])) && !LooksLike4Kn(disk, crc))
    ensures Probe(disk, true, crc) == Ok(Probed(Gpt, Expected(plan, |disk|), RecoveredFromBackup))
  {
    BackupAlone(disk, plan, crc);
    assert disk[0..SECTOR] == disk[..SECTOR] && disk[..SECTOR][510..512] == disk[510..512];
    RecoverFound(disk, Expected(plan, |disk|), crc);
  }

  lemma {:induction false} BackupAlone(disk: Disk, plan: Plan, crc: Crc)
    requires Good(plan, |disk|)
    requires CopyOnDisk(disk, plan, BackupHeader(plan, |disk|, crc(Flatten(EntriesOf(plan)))), crc)
    ensures ParseBackup(disk, crc) == Ok(Expected(plan, |disk|))
  {
    PlacesFit(plan.g, |disk|);
    CopyReads(disk, plan, BackupHeader(plan, |disk|, crc(Flatten(EntriesOf(plan)))), crc);
  }

  lemma {:induction false} RecoverFound(disk: Disk, parts: seq<Partition>, crc: Crc)
    requires 2 * SECTOR <= |disk| && ParseCopy(disk, 1, crc).Err? && ParseBackup(disk, crc) == Ok(parts)
    requires
      || disk[SECTOR..2 * SECTOR][..8] == SIGNATURE
      || (&& disk[0..SECTOR][510..512] == [0x55, 0xAA] && IsProtective(TableOf(disk[0..SECTOR]))
          && !LooksLike4Kn(disk, crc))
    ensures Probe(disk, true, crc) == Ok(Probed(Gpt, parts, RecoveredFromBackup))
  {
  }

  /** The entries of a table on disk are read whole. */
  lemma {:induction false} EntriesOnDisk(disk: Disk, plan: Plan, crc: Crc)
    requires OnDisk(disk, plan, crc)
    ensures ReadEntries(disk, PrimaryHeader(plan, |disk|, crc(Flatten(EntriesOf(plan)))), crc) == Ok(EntriesOf(plan))
  {
    EntriesFound(disk, PrimaryHeader(plan, |disk|, crc(Flatten(EntriesOf(plan)))), EntriesOf(plan), crc);
  }

  /** The shape a set is given by the header found on its disk. */
  function GeometryOf(h: Header): Geometry {
    Geometry(h.numEntries, h.entrySize, h.entryLba, Some(UsableOf(h)))
  }

  /** A set read from the disk has the disk's GUID, and a geometry with the usable range the
      table was written with. */
  lemma {:induction false} GeometryOnDisk(disk: Disk, plan: Plan, crc: Crc)
    requires OnDisk(disk, plan, crc)
    ensures 2 * SECTOR <= |disk|
    ensures var h := ParseHeader(disk[SECTOR..2 * SECTOR], crc);
      && h.Ok? && h.value.diskGuid == plan.diskGuid
      && GeometryOf(h.value).UsableRange(|disk| / SECTOR) == plan.g.UsableRange(|disk| / SECTOR)
  {
    HeaderThere(disk, plan, crc);
    GeometryKept(plan, |disk|, crc(Flatten(EntriesOf(plan))));
  }

  lemma {:induction false} HeaderThere(disk: Disk, plan: Plan, crc: Crc)
    requires OnDisk(disk, plan, crc)
    ensures 2 * SECTOR <= |disk|
    ensures ParseHeader(disk[SECTOR..2 * SECTOR], crc) == Ok(PrimaryHeader(plan, |disk|, crc(Flatten(EntriesOf(plan)))))
  {
    HeaderReadBack(PrimaryHeader(plan, |disk|, crc(Flatten(EntriesOf(plan)))), crc);
  }

  lemma {:induction false} GeometryKept(plan: Plan, size: nat, entriesCrc: u32)
    requires plan.g.UsableRange(size / SECTOR).Ok? && size < U64
    ensures var found := GeometryOf(PrimaryHeader(plan, size, entriesCrc));
      found.UsableRange(size / SECTOR) == plan.g.UsableRange(size / SECTOR)
  {
    DeclaredIsKept(plan.g, size / SECTOR);
    var stated := plan.g.(declared := Some(plan.g.UsableRange(size / SECTOR).value));
    assert GeometryOf(PrimaryHeader(plan, size, entriesCrc)) == stated;
  }

  // ----- the commit

  /** Write a whole GPT, or leave the device as it was. */
  method WriteGpt(dev: Device, parts: seq<Partition>, diskGuid: Guid, g: Geometry, tails: Tails,
                  lba0: seq<ReservedEntry>, crc: Crc)
    returns (r: Result<seq<nat>>)
    requires dev.Valid()
    modifies dev
    ensures dev.Valid()
    ensures r.Ok? <==>
      dev.writable && GptAccepts(|old(dev.bytes)| / SECTOR, parts, g) && Lba0For(old(dev.bytes), lba0, parts).Ok?
    ensures r.Err? ==> dev.bytes == old(dev.bytes)
    ensures r.Ok? ==> Assigned(SlotsOf(parts), g.numEntries, [], r.value)
    ensures r.Ok? ==> WrittenTo(old(dev.bytes), dev.bytes, Plan(parts, r.value, g, diskGuid, tails),
                                Lba0For(old(dev.bytes), lba0, parts), crc)
  {
    if !dev.writable { return Err(ReadOnly); }
    var size := |dev.bytes|;
    r := PlanGpt(size / SECTOR, parts, g);
    if r.Err? { return; }
    AcceptedIsPlanned(size / SECTOR, parts, g, r.value);
    var first := Lba0For(dev.bytes, lba0, parts);
    if first.Err? { return Err(first.error); }
    StorePlan(dev, Plan(parts, r.value, g, diskGuid, tails), first.value, crc);
  }

  /** LBA 0 to write over the one on the disk. */
  function Lba0For(disk: seq<byte>, lba0: seq<ReservedEntry>, parts: seq<Partition>): Result<Sector> {
    if |disk| < SECTOR then Err(DeviceTooSmall) else NewLba0(disk[..SECTOR], lba0, |disk| / SECTOR, parts)
  }

  ghost predicate WrittenTo(before: seq<byte>, after: seq<byte>, plan: Plan, lba0: Result<Sector>, crc: Crc) {
    && Good(plan, |before|) && lba0.Ok?
    && InBounds(WritesOf(plan, |before|, lba0.value, crc), |before|)
    && after == Written(before, plan, lba0.value, crc)
  }

  method StorePlan(dev: Device, plan: Plan, lba0: Sector, crc: Crc)
    requires dev.Valid() && dev.writable && Good(plan, |dev.bytes|)
    modifies dev
    ensures dev.Valid() && WrittenTo(old(dev.bytes), dev.bytes, plan, Ok(lba0), crc)
  {
    var size, g := |dev.bytes|, plan.g;
    WritesApart(plan, size, lba0, crc);
    var data := BuildArray(plan.parts, plan.slots, g.numEntries, g.entrySize, plan.tails);
    var check := crc(data);
    var primary := BuildHeader(PrimaryHeader(plan, size, check), crc);
    var backup := BuildHeader(BackupHeader(plan, size, check), crc);
    WriteAll(dev, TableWrites(g, size, lba0, primary, data, backup));
  }
}
