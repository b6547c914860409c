/** Writing the MBR's four entries back, keeping everything else in the boot sector. */
module MbrWriter {
  import opened Bytes
  import opened MbrTable
  import opened PartitionTable
  import opened Sizes
  import opened Slots
  import opened Spans
  import opened Wrappers

  // ----- what is accepted

  predicate ValidPartition(p: Partition, total: int) {
    && p.kind.MbrKind?
    && p.length != 0 && SectorAligned(p)
    && SectorSpan(p).Some?
    && p.start / SECTOR <= MBR_LBA_MAX && p.length / SECTOR <= MBR_LBA_MAX
    && p.start / SECTOR >= 1
    && p.start + p.length <= total
  }

  function ReservedSlots(reserved: seq<ReservedEntry>): (r: seq<nat>)
    ensures |r| == |reserved| && forall i :: 0 <= i < |r| ==> r[i] == reserved[i].slot
  {
    seq(|reserved|, i requires 0 <= i < |reserved| => reserved[i].slot)
  }

  /** The ranges reserved entries claim. */
  function ClaimsOf(reserved: seq<ReservedEntry>): seq<Span> {
    if reserved == [] then []
    else
      var k := |reserved| - 1;
      ClaimsOf(reserved[..k]) + if reserved[k].Claim().Some? then [reserved[k].Claim().value] else []
  }

  /** A table the writer takes: entries that fit, each inside the device and clear of the boot
      sector, no two sharing a sector, and a slot for each. */
  ghost predicate Accepts(total: int, parts: seq<Partition>, reserved: seq<ReservedEntry>) {
    && |parts| + |reserved| <= ENTRY_COUNT
    && total >= SECTOR
    && (forall p :: p in parts ==> ValidPartition(p, total))
    && PairwiseDisjoint(PartSpans(parts) + ClaimsOf(reserved))
    && Assignable(SlotsOf(parts), ENTRY_COUNT, ReservedSlots(reserved))
  }

  // ----- what is written

  /** The entry of a partition over the one that was in its slot, whose CHS bytes stay when it
      described the same sectors. */
  function EntryFor(prior: Entry, p: Partition): (r: Entry)
    requires p.kind.MbrKind?
  {
    var start, count := ToLE(p.start / SECTOR, 4), ToLE(p.length / SECTOR, 4);
    var same := prior[4] != EMPTY && prior[8..12] == start && prior[12..16] == count;
    EntryBytes(if p.kind.active then STATUS_ACTIVE else 0, if same then prior[1..4] else Zeros(3), p.kind.typeByte,
               if same then prior[5..8] else Zeros(3), start, count)
  }

  function EntryBytes(status: byte, firstChs: seq<byte>, typeByte: byte, lastChs: seq<byte>, start: seq<byte>,
                      count: seq<byte>): (e: Entry)
    requires |firstChs| == |lastChs| == 3 && |start| == |count| == 4
    ensures e[0] == status && e[4] == typeByte && e[8..12] == start && e[12..16] == count
  {
    [status] + firstChs + [typeByte] + lastChs + start + count
  }

  lemma {:induction false} EntryParts(e: Entry)
    ensures e == EntryBytes(e[0], e[1..4], e[4], e[5..8], e[8..12], e[12..16])
  {
  }

  const NO_ENTRIES: Entries := [Zeros(16), Zeros(16), Zeros(16), Zeros(16)]

  predicate SlotsFit(reserved: seq<ReservedEntry>) {
    forall j :: 0 <= j < |reserved| ==> reserved[j].slot < ENTRY_COUNT
  }

  predicate TableFits(parts: seq<Partition>, slots: seq<nat>) {
    |parts| == |slots| && forall j :: 0 <= j < |slots| ==> slots[j] < ENTRY_COUNT && parts[j].kind.MbrKind?
  }

  function BytesOf(reserved: seq<ReservedEntry>): (r: seq<Entry>)
    ensures |r| == |reserved| && forall i :: 0 <= i < |r| ==> r[i] == reserved[i].bytes
  {
    seq(|reserved|, i requires 0 <= i < |reserved| => reserved[i].bytes)
  }

  /** The table with nothing but the kept entries. */
  function KeepReserved(reserved: seq<ReservedEntry>): (t: Entries)
    requires SlotsFit(reserved)
    ensures |t| == ENTRY_COUNT
  {
    Placed(NO_ENTRIES, ReservedSlots(reserved), BytesOf(reserved))
  }

  function EntriesFor(prior: Entries, parts: seq<Partition>, slots: seq<nat>): (r: seq<Entry>)
    requires |prior| == ENTRY_COUNT && TableFits(parts, slots)
    ensures |r| == |parts| && forall i :: 0 <= i < |r| ==> r[i] == EntryFor(prior[slots[i]], parts[i])
  {
    seq(|parts|, i requires 0 <= i < |parts| => EntryFor(prior[slots[i]], parts[i]))
  }

  /** The table as written: kept entries, then one for each partition in its slot. */
  function NewTable(prior: Entries, parts: seq<Partition>, slots: seq<nat>, reserved: seq<ReservedEntry>): (t: Entries)
    requires |prior| == ENTRY_COUNT && SlotsFit(reserved) && TableFits(parts, slots)
    ensures |t| == ENTRY_COUNT
  {
    Placed(KeepReserved(reserved), slots, EntriesFor(prior, parts, slots))
  }

  lemma {:induction false} SlotOfReserved(reserved: seq<ReservedEntry>, j: nat)
    requires SlotsFit(reserved) && j < |reserved| && Distinct(ReservedSlots(reserved))
    ensures KeepReserved(reserved)[reserved[j].slot] == reserved[j].bytes
  {
    PlacedAt(NO_ENTRIES, ReservedSlots(reserved), BytesOf(reserved), j);
  }

  lemma {:induction false} SlotOfNone(reserved: seq<ReservedEntry>, s: nat)
    requires SlotsFit(reserved) && s < ENTRY_COUNT && forall r :: r in reserved ==> r.slot != s
    ensures KeepReserved(reserved)[s] == Zeros(16)
  {
    forall i | 0 <= i < |reserved| ensures ReservedSlots(reserved)[i] != s { assert reserved[i] in reserved; }
    PlacedElse(NO_ENTRIES, ReservedSlots(reserved), BytesOf(reserved), s);
  }

  lemma {:induction false} SlotKept(prior: Entries, parts: seq<Partition>, slots: seq<nat>,
                                    reserved: seq<ReservedEntry>, s: nat)
    requires |prior| == ENTRY_COUNT && SlotsFit(reserved) && TableFits(parts, slots) && s < ENTRY_COUNT
    requires s !in slots
    ensures NewTable(prior, parts, slots, reserved)[s] == KeepReserved(reserved)[s]
  {
    PlacedElse(KeepReserved(reserved), slots, EntriesFor(prior, parts, slots), s);
  }

  lemma {:induction false} SlotOfPart(prior: Entries, parts: seq<Partition>, slots: seq<nat>,
                                      reserved: seq<ReservedEntry>, j: nat)
    requires |prior| == ENTRY_COUNT && SlotsFit(reserved) && TableFits(parts, slots)
    requires j < |parts| && Distinct(slots)
    ensures NewTable(prior, parts, slots, reserved)[slots[j]] == EntryFor(prior[slots[j]], parts[j])
  {
    PlacedAt(KeepReserved(reserved), slots, EntriesFor(prior, parts, slots), j);
  }

  // ----- one entry read back

  /** A written entry says what the partition said. */
  lemma {:induction false} EntryReadBack(prior: Entry, p: Partition)
    requires p.kind.MbrKind? && SectorAligned(p) && p.start / SECTOR <= MBR_LBA_MAX && p.length / SECTOR <= MBR_LBA_MAX
    ensures var e := EntryFor(prior, p);
      && Start(e) * SECTOR == p.start && Count(e) * SECTOR == p.length
      && e[4] == p.kind.typeByte && e[0] == (if p.kind.active then STATUS_ACTIVE else 0)
  {
    Widths();
    var start, count := ToLE(p.start / SECTOR, 4), ToLE(p.length / SECTOR, 4);
    ToFromLE(p.start / SECTOR, 4);
    ToFromLE(p.length / SECTOR, 4);
  }

  /** Reading an entry and writing it over itself gives it back, exactly when its status byte is
      one the writer can produce. */
  lemma {:induction false} EntryRewritten(e: Entry, slot: u32, deviceSize: u64)
    requires IsVolume(e)
    ensures EntryFor(e, PartitionOf(e, slot, deviceSize)) == e <==> e[0] == 0 || e[0] == STATUS_ACTIVE
  {
    var p := PartitionOf(e, slot, deviceSize);
    FromToLE(e[8..12]);
    FromToLE(e[12..16]);
    assert p.start / SECTOR == Start(e) && p.length / SECTOR == Count(e);
    EntryParts(e);
  }

  // ----- the sector

  /** Storing one entry changes that entry of the table and nothing else. */
  lemma {:induction false} PutEntry(s: Sector, i: nat, e: Entry)
    requires i < ENTRY_COUNT
    ensures var t := Put(s, TABLE_START + i * ENTRY_BYTES, e);
      && TableOf(t) == TableOf(s)[i := e] && t[..TABLE_START] == s[..TABLE_START] && t[510..] == s[510..]
  {
    var at := TABLE_START + i * ENTRY_BYTES;
    var t: Sector := Put(s, at, e);
    PutSlice(s, at, e);
    forall k | 0 <= k < ENTRY_COUNT && k != i
      ensures EntryAt(t, k) == EntryAt(s, k)
    {
      PutApart(s, at, e, TABLE_START + k * ENTRY_BYTES, TABLE_START + (k + 1) * ENTRY_BYTES);
    }
  }

  /** The whole table cleared. */
  lemma {:induction false} ClearEntries(s: Sector)
    ensures var t := Put(s, TABLE_START, Zeros(64));
      && TableOf(t) == NO_ENTRIES && t[..TABLE_START] == s[..TABLE_START] && t[510..] == s[510..]
  {
    var t: Sector := Put(s, TABLE_START, Zeros(64));
    forall i: nat | i < ENTRY_COUNT ensures EntryAt(t, i) == Zeros(16) {
    }
  }

  lemma {:induction false} Signed(s: Sector)
    ensures var t := Put(s, 510, [0x55, 0xAA]);
      && TableOf(t) == TableOf(s) && t[..TABLE_START] == s[..TABLE_START] && t[510..] == [0x55, 0xAA]
  {
    var t: Sector := Put(s, 510, [0x55, 0xAA]);
    forall i: nat | i < ENTRY_COUNT ensures EntryAt(t, i) == EntryAt(s, i) {
      PutApart(s, 510, [0x55, 0xAA], TABLE_START + i * ENTRY_BYTES, TABLE_START + (i + 1) * ENTRY_BYTES);
    }
  }

  /** A boot sector is its code, its table and its signature. */
  lemma {:induction false} SectorParts(s: Sector, t: Sector)
    ensures s == t <==> s[..TABLE_START] == t[..TABLE_START] && TableOf(s) == TableOf(t) && s[510..] == t[510..]
  {
    if s[..TABLE_START] == t[..TABLE_START] && TableOf(s) == TableOf(t) && s[510..] == t[510..] {
      SectorSplit(s);
      SectorSplit(t);
      assert forall i :: 0 <= i < ENTRY_COUNT ==> TableOf(s)[i] == TableOf(t)[i];
    }
  }

  lemma {:induction false} SectorSplit(s: Sector)
    ensures s == s[..TABLE_START] + EntryAt(s, 0) + EntryAt(s, 1) + EntryAt(s, 2) + EntryAt(s, 3) + s[510..]
  {
  }

  /** Store entries into their slots, one after another. */
  method StoreEntries(existing: Sector, slots: seq<nat>, entries: seq<Entry>) returns (sector: Sector)
    requires |slots| == |entries| && forall j :: 0 <= j < |slots| ==> slots[j] < ENTRY_COUNT
    ensures TableOf(sector) == Placed(TableOf(existing), slots, entries)
    ensures sector[..TABLE_START] == existing[..TABLE_START] && sector[510..] == existing[510..]
  {
    sector := existing;
    var k: nat := 0;
    while k < |slots|
      invariant k <= |slots|
      invariant TableOf(sector) == Placed(TableOf(existing), slots[..k], entries[..k])
      invariant sector[..TABLE_START] == existing[..TABLE_START] && sector[510..] == existing[510..]
    {
      PlacedNext(TableOf(existing), slots, entries, k);
      PutEntry(sector, slots[k], entries[k]);
      sector := Put(sector, TABLE_START + slots[k] * ENTRY_BYTES, entries[k]);
      k := k + 1;
    }
    assert slots[..k] == slots && entries[..k] == entries;
  }

  /** The boot sector to write over `existing`: the table cleared, kept entries stored, and then
      one for each partition. */
  method BuildSector(existing: Sector, parts: seq<Partition>, slots: seq<nat>, reserved: seq<ReservedEntry>)
    returns (sector: Sector)
    requires SlotsFit(reserved) && TableFits(parts, slots)
    ensures TableOf(sector) == NewTable(TableOf(existing), parts, slots, reserved)
    ensures sector[..TABLE_START] == existing[..TABLE_START] && sector[510..] == [0x55, 0xAA]
  {
    ClearEntries(existing);
    sector := Put(existing, TABLE_START, Zeros(64));
    sector := StoreEntries(sector, ReservedSlots(reserved), BytesOf(reserved));
    sector := StoreEntries(sector, slots, EntriesFor(TableOf(existing), parts, slots));
    Signed(sector);
    sector := Put(sector, 510, [0x55, 0xAA]);
  }
}
