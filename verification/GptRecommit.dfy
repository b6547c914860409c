/** Committing a set again with nothing edited: exactly when it leaves every byte of the disk alone. */
module GptRecommit {
  import opened Bytes
  import opened Editing
  import opened EditingSessions
  import opened GptCommit
  import opened GptEntries
  import opened GptGeometry
  import opened GptHeader
  import opened GptRoundTrip
  import opened GptTable
  import opened GptWriter
  import opened HybridMbr
  import opened MbrTable
  import opened PartitionEditor
  import opened PartitionTable
  import opened Probing
  import opened Sizes
  import opened Slots
  import opened Utf16
  import opened Wrappers

  // ----- the entries

  lemma {:induction false} ImagesSame(typeGuid: Guid, uuid: Guid, first: u64, last: u64, attributes: u64, a: seq<byte>,
                                      b: seq<byte>, tail: seq<byte>)
    requires |a| == |b| == NAME_BYTES
    requires EntryImage(typeGuid, uuid, first, last, attributes, a, tail)
      == EntryImage(typeGuid, uuid, first, last, attributes, b, tail)
    ensures a == b
  {
    EntrySlice(typeGuid, uuid, first, last, attributes, a, tail, 5);
    EntrySlice(typeGuid, uuid, first, last, attributes, b, tail, 5);
  }

  lemma {:induction false} SameButName(p: Partition, q: Partition, size: nat, tails: Tails, again: Tails)
    requires p.kind.GptKind? && SectorSpan(p).Some? && p.uuid.Some? && size >= STANDARD_BYTES
    requires q.kind == p.kind && SectorSpan(q) == SectorSpan(p) && q.uuid == p.uuid
    requires TailFor(again, p.uuid.value, size - STANDARD_BYTES) == TailFor(tails, p.uuid.value, size - STANDARD_BYTES)
    ensures EntryFor(q, size, again) == EntryFor(p, size, tails) <==> FieldOf(q.name) == FieldOf(p.name)
  {
    var span := SectorSpan(p).value;
    if EntryFor(q, size, again) == EntryFor(p, size, tails) {
      ImagesSame(p.kind.typeGuid, p.uuid.value, span.first, span.last, p.kind.attributes, FieldOf(q.name),
                 FieldOf(p.name), TailFor(tails, p.uuid.value, size - STANDARD_BYTES));
    }
  }

  /** A partition read back has the entry it had, exactly when nothing follows the first NUL of its name. */
  lemma {:induction false} EntryAgain(p: Partition, slot: u32, deviceSize: u64, size: nat, tails: Tails, again: Tails)
    requires p.kind.GptKind? && SectorSpan(p).Some? && p.uuid.Some? && size >= STANDARD_BYTES
    requires TailFor(again, p.uuid.value, size - STANDARD_BYTES) == TailFor(tails, p.uuid.value, size - STANDARD_BYTES)
    ensures SectorSpan(AsRead(p, slot, deviceSize)) == SectorSpan(p)
    ensures EntryFor(AsRead(p, slot, deviceSize), size, again) == EntryFor(p, size, tails) <==>
      NulsAfter(StoredName(p.name))
  {
    NameAgain(p.name);
    SameButName(p, AsRead(p, slot, deviceSize), size, tails, again);
  }

  /** The plan of a set that was read from a disk a plan is on. */
  function Again(plan: Plan, size: u64, slots: seq<nat>): Plan
    requires Placeable(plan.parts, plan.slots, plan.g.numEntries) && plan.g.numEntries <= MAX_ENTRIES
    requires plan.g.UsableRange(size / SECTOR).Ok?
  {
    Plan(Expected(plan, size), slots, Stated(plan, size), plan.diskGuid, TailsLeft(plan))
  }

  /** A plan read again, with the slots it is written to. */
  ghost predicate ReadAgain(plan: Plan, size: u64, slots: seq<nat>) {
    && Good(plan, size) && Good(Again(plan, size, slots), size)
    && Assigned(SlotsOf(Expected(plan, size)), plan.g.numEntries, [], slots)
  }

  lemma {:induction false} TailAgain(plan: Plan, size: u64, j: nat)
    requires Good(plan, size) && j < |plan.parts|
    ensures plan.parts[j].uuid.Some? && (forall k :: 0 <= k < |plan.parts| ==> plan.parts[k].uuid.Some?)
    ensures var (u, room) := (plan.parts[j].uuid.value, plan.g.entrySize - STANDARD_BYTES);
      room >= 0 && TailFor(TailsLeft(plan), u, room) == TailFor(plan.tails, u, room)
  {
    PlannedUuids(plan, size);
    var u, room := plan.parts[j].uuid.value, plan.g.entrySize - STANDARD_BYTES;
    assert u in UuidsOf(plan.parts);
    if room > 0 {
      var tail := TailFor(plan.tails, u, room);
      assert TailsLeft(plan)[u] == tail && tail[..room] == tail;
    }
  }

  /** Where a partition of the plan comes in the set that was read. */
  lemma {:induction false} PlaceAgain(plan: Plan, size: u64, slots: seq<nat>, j: nat) returns (i: nat)
    requires ReadAgain(plan, size, slots) && j < |plan.parts|
    ensures i < |slots| && slots[i] == plan.slots[j]
    ensures i < |Expected(plan, size)| && Expected(plan, size)[i] == AsRead(plan.parts[j], plan.slots[j], size)
  {
    var read := Expected(plan, size);
    ExpectedMembers(plan, size, AsRead(plan.parts[j], plan.slots[j], size));
    i :| 0 <= i < |read| && read[i] == AsRead(plan.parts[j], plan.slots[j], size);
    assert SlotsOf(read)[i] == Some(plan.slots[j]);
  }

  lemma {:induction false} NoOtherSlot(plan: Plan, size: u64, slots: seq<nat>, s: nat)
    requires ReadAgain(plan, size, slots) && s !in plan.slots
    ensures s !in slots
  {
    forall i | 0 <= i < |slots| ensures slots[i] != s {
      var read := Expected(plan, size);
      var j := ReadFrom(plan.parts, plan.slots, plan.g.numEntries, size, i);
      assert SlotsOf(read)[i] == Some(plan.slots[j]) && plan.slots[j] in plan.slots;
    }
  }

  /** The entry of a slot is written again as it was, exactly when its name can be. */
  lemma {:induction false} UsedAgain(plan: Plan, size: u64, slots: seq<nat>, j: nat)
    requires ReadAgain(plan, size, slots) && j < |plan.parts|
    ensures EntriesOf(Again(plan, size, slots))[plan.slots[j]] == EntriesOf(plan)[plan.slots[j]] <==>
      NulsAfter(StoredName(plan.parts[j].name))
  {
    var again := Again(plan, size, slots);
    var i := PlaceAgain(plan, size, slots, j);
    TailAgain(plan, size, j);
    SlotAgain(plan.parts, plan.slots, plan.tails, again.parts, slots, again.tails, plan.g.numEntries, plan.g.entrySize,
              size, i, j);
  }

  lemma {:induction false} SlotAgain(parts: seq<Partition>, slots: seq<nat>, tails: Tails, read: seq<Partition>,
                                     slots': seq<nat>, tails': Tails, n: nat, bytes: nat, size: u64, i: nat, j: nat)
    requires Placeable(parts, slots, n) && Placeable(read, slots', n) && bytes >= STANDARD_BYTES && n <= MAX_ENTRIES
    requires Distinct(slots) && Distinct(slots') && j < |parts| && i < |read| && slots'[i] == slots[j]
    requires read[i] == AsRead(parts[j], slots[j], size)
    requires TailFor(tails', parts[j].uuid.value, bytes - STANDARD_BYTES)
      == TailFor(tails, parts[j].uuid.value, bytes - STANDARD_BYTES)
    ensures NewEntries(read, slots', n, bytes, tails')[slots[j]] == NewEntries(parts, slots, n, bytes, tails)[slots[j]]
      <==> NulsAfter(StoredName(parts[j].name))
  {
    EntryOfPart(parts, slots, n, bytes, tails, j);
    EntryOfPart(read, slots', n, bytes, tails', i);
    EntryAgain(parts[j], slots[j], size, bytes, tails, tails');
  }

  lemma {:induction false} UnusedAgain(plan: Plan, size: u64, slots: seq<nat>, s: nat)
    requires ReadAgain(plan, size, slots) && s < plan.g.numEntries && s !in plan.slots
    ensures EntriesOf(Again(plan, size, slots))[s] == EntriesOf(plan)[s]
  {
    var again, n, bytes := Again(plan, size, slots), plan.g.numEntries, plan.g.entrySize;
    NoOtherSlot(plan, size, slots, s);
    EntryOfNone(plan.parts, plan.slots, n, bytes, plan.tails, s);
    EntryOfNone(again.parts, slots, n, bytes, again.tails, s);
  }

  /** Nothing follows the first NUL of any name. */
  predicate NamesClean(parts: seq<Partition>) {
    forall j :: 0 <= j < |parts| ==> NulsAfter(StoredName(parts[j].name))
  }

  lemma {:induction false} EntriesAgain(plan: Plan, size: u64, slots: seq<nat>)
    requires ReadAgain(plan, size, slots)
    ensures EntriesOf(Again(plan, size, slots)) == EntriesOf(plan) <==> NamesClean(plan.parts)
  {
    var was, now := EntriesOf(plan), EntriesOf(Again(plan, size, slots));
    forall j: nat | j < |plan.parts|
      ensures now[plan.slots[j]] == was[plan.slots[j]] <==> NulsAfter(StoredName(plan.parts[j].name))
    {
      UsedAgain(plan, size, slots, j);
    }
    if NamesClean(plan.parts) {
      forall s: nat | s < plan.g.numEntries ensures now[s] == was[s] {
        if s in plan.slots {
          var j: nat :| j < |plan.slots| && plan.slots[j] == s;
        } else {
          UnusedAgain(plan, size, slots, s);
        }
      }
    }
  }

  // ----- the disk

  lemma {:induction false} HeadersAgain(plan: Plan, size: u64, slots: seq<nat>, entriesCrc: u32)
    requires ReadAgain(plan, size, slots)
    ensures PrimaryHeader(Again(plan, size, slots), size, entriesCrc) == PrimaryHeader(plan, size, entriesCrc)
    ensures BackupHeader(Again(plan, size, slots), size, entriesCrc) == BackupHeader(plan, size, entriesCrc)
  {
    DeclaredIsKept(plan.g, size / SECTOR);
  }

  /** Stores of what is there already change nothing. */
  lemma {:induction false} ApplySame(disk: seq<byte>, writes: seq<Write>)
    requires InBounds(writes, |disk|) && forall i :: 0 <= i < |writes| ==> Holds(disk, writes[i].at, writes[i].bytes)
    ensures Apply(disk, writes) == disk
  {
    if writes != [] {
      var k := |writes| - 1;
      ApplySame(disk, writes[..k]);
      var w := writes[k];
      assert disk[w.at..w.at + |w.bytes|] == w.bytes;
      assert disk == disk[..w.at] + disk[w.at..w.at + |w.bytes|] + disk[w.at + |w.bytes|..];
    }
  }

  lemma {:induction false} SameEntriesHeld(disk: seq<byte>, at: nat, a: EntryList, b: EntryList, size: nat)
    requires size >= STANDARD_BYTES && Uniform(a, size) && Uniform(b, size) && |a| == |b|
    requires Holds(disk, at, Flatten(a)) && Holds(disk, at, Flatten(b))
    ensures a == b
  {
    CutFlatten(a, size);
    CutFlatten(b, size);
  }

  /** Where the parts of a table go does not depend on how its usable range was stated. */
  lemma {:induction false} SamePlaces(g: Geometry, stated: Geometry, size: nat, lba0: seq<byte>, primary: seq<byte>,
                                      data: seq<byte>, backup: seq<byte>)
    requires g.UsableRange(size / SECTOR).Ok? && stated.UsableRange(size / SECTOR).Ok?
    requires stated == g.(declared := stated.declared)
    ensures TableWrites(stated, size, lba0, primary, data, backup) == TableWrites(g, size, lba0, primary, data, backup)
  {
    assert stated.ArraySectors() == g.ArraySectors();
  }

  lemma {:induction false} SameWrites(plan: Plan, size: u64, slots: seq<nat>, lba0: Sector, crc: Crc)
    requires ReadAgain(plan, size, slots) && EntriesOf(Again(plan, size, slots)) == EntriesOf(plan)
    ensures WritesOf(Again(plan, size, slots), size, lba0, crc) == WritesOf(plan, size, lba0, crc)
  {
    var again, data := Again(plan, size, slots), Flatten(EntriesOf(plan));
    HeadersAgain(plan, size, slots, crc(data));
    SamePlaces(plan.g, again.g, size, lba0, HeaderSector(PrimaryHeader(plan, size, crc(data)), crc), data,
               HeaderSector(BackupHeader(plan, size, crc(data)), crc));
  }

  lemma {:induction false} AllHeld(disk: Disk, plan: Plan, lba0: Sector, crc: Crc)
    requires OnDisk(disk, plan, crc) && Holds(disk, 0, lba0)
    ensures forall w :: w in WritesOf(plan, |disk|, lba0, crc) ==> Holds(disk, w.at, w.bytes)
  {
  }

  /** Writing the plan again changes nothing if its entries and LBA 0 are what they were. */
  lemma {:induction false} WrittenAgain(disk: Disk, plan: Plan, slots: seq<nat>, lba0: Sector, crc: Crc)
    requires OnDisk(disk, plan, crc) && ReadAgain(plan, |disk|, slots)
    requires EntriesOf(Again(plan, |disk|, slots)) == EntriesOf(plan) && Holds(disk, 0, lba0)
    ensures InBounds(WritesOf(Again(plan, |disk|, slots), |disk|, lba0, crc), |disk|)
    ensures Written(disk, Again(plan, |disk|, slots), lba0, crc) == disk
  {
    var writes := WritesOf(plan, |disk|, lba0, crc);
    SameWrites(plan, |disk|, slots, lba0, crc);
    AllHeld(disk, plan, lba0, crc);
    forall i | 0 <= i < |writes| ensures Holds(disk, writes[i].at, writes[i].bytes) {
      assert writes[i] in writes;
    }
    ApplySame(disk, writes);
  }

  /** And only then. */
  lemma {:induction false} WrittenSame(disk: Disk, plan: Plan, slots: seq<nat>, lba0: Sector, crc: Crc)
    requires OnDisk(disk, plan, crc) && ReadAgain(plan, |disk|, slots)
    requires InBounds(WritesOf(Again(plan, |disk|, slots), |disk|, lba0, crc), |disk|)
    requires Written(disk, Again(plan, |disk|, slots), lba0, crc) == disk
    ensures EntriesOf(Again(plan, |disk|, slots)) == EntriesOf(plan) && Holds(disk, 0, lba0)
  {
    var again := Again(plan, |disk|, slots);
    WriteLands(disk, again, lba0, crc, 0);
    WriteLands(disk, again, lba0, crc, 2);
    SameEntriesHeld(disk, plan.g.entryLba * SECTOR, EntriesOf(again), EntriesOf(plan), plan.g.entrySize);
  }

  /** A set read from a disk that holds a planned table, and committed with nothing edited, leaves every
      byte alone: exactly when nothing follows the first NUL of a name and LBA 0 is signed and stable. */
  lemma {:induction false} RecommitExact(disk: Disk, after: seq<byte>, plan: Plan, crc: Crc, parts: seq<Partition>,
                                         t: Target, guid: Guid, tails: Tails, slots: seq<nat>)
    requires OnDisk(disk, plan, crc) && LoadedFrom(disk, crc, parts, t, guid, tails)
    requires t.kind == Gpt && Committed(disk, after, parts, t, guid, tails, slots, crc)
    requires Assigned(SlotsOf(parts), t.SlotCount(), [], slots)
    ensures |disk| >= SECTOR
    ensures after == disk <==>
      && NamesClean(plan.parts) && disk[..SECTOR][510..] == [0x55, 0xAA]
      && Stable(TableOf(disk[..SECTOR]), |disk| / SECTOR, parts)
  {
    LoadsExactly(disk, plan, crc, parts, t, guid, tails);
    var lba0 := Lba0For(disk, FoundIn(disk), parts).value;
    assert parts == Expected(plan, |disk|) && Plan(parts, slots, t.geometry, guid, tails) == Again(plan, |disk|, slots);
    assert ReadAgain(plan, |disk|, slots);
    SectorKept(disk[..SECTOR], |disk| / SECTOR, parts);
    FirstHeld(disk, lba0);
    EntriesAgain(plan, |disk|, slots);
    if after == disk { WrittenSame(disk, plan, slots, lba0, crc); }
    if EntriesOf(Again(plan, |disk|, slots)) == EntriesOf(plan) && Holds(disk, 0, lba0) {
      WrittenAgain(disk, plan, slots, lba0, crc);
    }
  }

  lemma {:induction false} FirstHeld(disk: Disk, sector: Sector)
    requires |disk| >= SECTOR
    ensures Holds(disk, 0, sector) <==> sector == disk[..SECTOR]
  {
  }

  // ----- two commits in a row

  lemma {:induction false} MirrorsAgain(plan: Plan, size: u64, e: Entry)
    requires Good(plan, size)
    ensures Mirrors(e, Expected(plan, size)) <==> Mirrors(e, plan.parts)
  {
    var read := Expected(plan, size);
    if i :| 0 <= i < |read| && read[i].start == Start(e) * SECTOR && read[i].length == Count(e) * SECTOR {
      ExpectedMembers(plan, size, read[i]);
    }
    if j :| 0 <= j < |plan.parts| && plan.parts[j].start == Start(e) * SECTOR
            && plan.parts[j].length == Count(e) * SECTOR
    {
      ExpectedMembers(plan, size, AsRead(plan.parts[j], plan.slots[j], size));
    }
  }

  lemma {:induction false} SettledAgain(plan: Plan, size: u64, table: Entries)
    requires Good(plan, size)
    ensures HybridMbr.Settled(table, Expected(plan, size)) <==> HybridMbr.Settled(table, plan.parts)
  {
    forall i | 0 <= i < |table| ensures Stale(table[i], Expected(plan, size)) <==> Stale(table[i], plan.parts) {
      MirrorsAgain(plan, size, table[i]);
    }
  }

  /** What a commit leaves in LBA 0 is signed, and stable but for a marker that stands alone. */
  lemma {:induction false} Lba0Left(before: Disk, disk: Disk, plan: Plan, found: Entries, crc: Crc)
    requires |found| == ENTRY_COUNT
    requires WrittenTo(before, disk, plan, Lba0For(before, FoundEntries(found), plan.parts), crc)
    ensures |disk| == |before| >= SECTOR && disk[..SECTOR][510..] == [0x55, 0xAA]
    ensures Stable(TableOf(disk[..SECTOR]), |disk| / SECTOR, Expected(plan, |disk|)) <==>
      MarkerMade(TableOf(disk[..SECTOR]), |disk| / SECTOR)
  {
    var lba0 := Lba0For(before, FoundEntries(found), plan.parts).value;
    WriteLands(before, plan, lba0, crc, 0);
    WrittenLba0(before[..SECTOR], found, |before| / SECTOR, plan.parts);
    FirstHeld(disk, lba0);
    SettledAgain(plan, |disk|, TableOf(lba0));
  }

  /** A GPT commit, the disk read again and committed with nothing edited: the second commit leaves
      every byte alone, exactly when nothing follows the first NUL of a name and a marker that
      stands alone is the one a commit writes. */
  lemma {:induction false} TwiceExact(before: Disk, disk: Disk, after: seq<byte>, plan: Plan, found: Entries, crc: Crc,
                                      parts: seq<Partition>, t: Target, guid: Guid, tails: Tails, slots: seq<nat>)
    requires |found| == ENTRY_COUNT
    requires WrittenTo(before, disk, plan, Lba0For(before, FoundEntries(found), plan.parts), crc)
    requires LoadedFrom(disk, crc, parts, t, guid, tails) && t.kind == Gpt
    requires Committed(disk, after, parts, t, guid, tails, slots, crc)
    requires Assigned(SlotsOf(parts), t.SlotCount(), [], slots)
    ensures |disk| >= SECTOR
    ensures after == disk <==> NamesClean(plan.parts) && MarkerMade(TableOf(disk[..SECTOR]), |disk| / SECTOR)
  {
    WrittenOnDisk(before, plan, Lba0For(before, FoundEntries(found), plan.parts).value, crc);
    RecommitExact(disk, after, plan, crc, parts, t, guid, tails, slots);
    LoadsExactly(disk, plan, crc, parts, t, guid, tails);
    Lba0Left(before, disk, plan, found, crc);
  }
}
