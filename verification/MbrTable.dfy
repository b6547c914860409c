/** The MBR: four primary entries in the boot sector, read and written back. */
module MbrTable {
  import opened Bytes
  import opened PartitionTable
  import opened Sizes
  import opened Spans
  import opened Wrappers

  const TABLE_START: int := 446
  const ENTRY_BYTES: int := 16
  const ENTRY_COUNT: int := 4
  const STATUS_ACTIVE: byte := 0x80
  const EMPTY: byte := 0
  const EXTENDED_CHS: byte := 0x05
  const EXTENDED_LBA: byte := 0x0F
  const LINUX_EXTENDED: byte := 0x85
  const GPT_PROTECTIVE: byte := 0xEE

  type Entry = e: seq<byte> | |e| == 16 witness Zeros(16)
  type Sector = s: seq<byte> | |s| == 512 witness Zeros(512)

  datatype Role = Volume | ExtendedContainer | GptMarker

  function EntryRole(typeByte: byte): Role {
    if typeByte in {EXTENDED_CHS, EXTENDED_LBA, LINUX_EXTENDED} then ExtendedContainer
    else if typeByte == GPT_PROTECTIVE then GptMarker
    else Volume
  }

  /** An entry the partition list does not show, kept as its sixteen bytes. */
  datatype ReservedEntry = ReservedEntry(slot: u32, bytes: Entry) {
    /** The sectors it claims: none for a GPT marker, whatever its span, or an empty entry. */
    function Claim(): (r: Option<Span>)
      ensures r.Some? ==> 0 <= r.value.first <= r.value.last < 0x2_0000_0000
    {
      Widths();
      if bytes[4] == GPT_PROTECTIVE || Count(bytes) == 0 then None
      else Some(Span(Start(bytes), Start(bytes) + Count(bytes) - 1))
    }
  }

  /** The first entries of a table. */
  type Entries = s: seq<Entry> | |s| <= ENTRY_COUNT

  function EntryAt(sector: Sector, i: nat): Entry
    requires i < ENTRY_COUNT
  {
    sector[TABLE_START + i * ENTRY_BYTES..TABLE_START + (i + 1) * ENTRY_BYTES]
  }

  function TableOf(sector: Sector): (r: Entries)
    ensures |r| == ENTRY_COUNT && forall i :: 0 <= i < ENTRY_COUNT ==> r[i] == EntryAt(sector, i)
  {
    [EntryAt(sector, 0), EntryAt(sector, 1), EntryAt(sector, 2), EntryAt(sector, 3)]
  }

  function Start(e: Entry): (r: u32) {
    Widths();
    FromLE(e[8..12])
  }

  function Count(e: Entry): (r: u32) {
    Widths();
    FromLE(e[12..16])
  }

  // ----- reading

  /** An entry the partition list shows. */
  predicate IsVolume(e: Entry) {
    e[4] != EMPTY && Count(e) != 0 && EntryRole(e[4]) == Volume
  }

  function PartitionOf(e: Entry, slot: u32, deviceSize: u64): Partition {
    Partition(Start(e) * SECTOR, Count(e) * SECTOR, MbrKind(e[4], e[0] >= STATUS_ACTIVE), None, None, Some(slot),
              NO_ISSUES,
              AvailableOnDevice(Start(e) * SECTOR, Count(e) * SECTOR, deviceSize))
  }

  /** Every entry that describes sectors, whatever its role. */
  function AllOf(table: Entries, deviceSize: u64): seq<Partition> {
    if table == [] then []
    else
      var k := |table| - 1;
      AllOf(table[..k], deviceSize) + if Describes(table[k]) then [PartitionOf(table[k], k, deviceSize)] else []
  }

  predicate Describes(e: Entry) {
    e[4] != EMPTY && Count(e) != 0
  }

  /** The volumes. */
  function VolumesOf(table: Entries, deviceSize: u64): seq<Partition> {
    if table == [] then []
    else
      var k := |table| - 1;
      VolumesOf(table[..k], deviceSize) + if IsVolume(table[k]) then [PartitionOf(table[k], k, deviceSize)] else []
  }

  /** The other entries that are not empty. */
  function ReservedOf(table: Entries): seq<ReservedEntry> {
    if table == [] then []
    else
      var k := |table| - 1;
      ReservedOf(table[..k]) + if IsReserved(table[k]) then [ReservedEntry(k, table[k])] else []
  }

  predicate IsReserved(e: Entry) {
    e[4] != EMPTY && !IsVolume(e)
  }

  method ParseAllEntries(sector: Sector, deviceSize: u64) returns (parts: seq<Partition>)
    ensures parts == AllOf(TableOf(sector), deviceSize)
  {
    parts := [];
    var i: nat := 0;
    ghost var table := TableOf(sector);
    while i < ENTRY_COUNT
      invariant i <= ENTRY_COUNT && parts == AllOf(table[..i], deviceSize)
    {
      var e := EntryAt(sector, i);
      assert table[..i + 1][..i] == table[..i];
      if e[4] != EMPTY && Count(e) != 0 {
        parts := parts + [PartitionOf(e, i, deviceSize)];
      }
      i := i + 1;
    }
    assert table[..i] == table;
  }

  predicate ShowsVolume(p: Partition) {
    p.kind.MbrKind? ==> EntryRole(p.kind.typeByte) == Volume
  }

  /** The partitions of a list that are volumes. */
  function Retained(parts: seq<Partition>): seq<Partition> {
    if parts == [] then []
    else Retained(parts[..|parts| - 1]) + if ShowsVolume(parts[|parts| - 1]) then [parts[|parts| - 1]] else []
  }

  lemma {:induction false} RetainedAdd(parts: seq<Partition>, p: Partition)
    ensures Retained(parts + [p]) == Retained(parts) + if ShowsVolume(p) then [p] else []
  {
    assert (parts + [p])[..|parts|] == parts;
  }

  lemma {:induction false} RetainedOfAll(table: Entries, deviceSize: u64)
    ensures Retained(AllOf(table, deviceSize)) == VolumesOf(table, deviceSize)
  {
    if table != [] {
      var k := |table| - 1;
      RetainedOfAll(table[..k], deviceSize);
      if Describes(table[k]) {
        RetainedAdd(AllOf(table[..k], deviceSize), PartitionOf(table[k], k, deviceSize));
      } else {
        assert AllOf(table, deviceSize) == AllOf(table[..k], deviceSize);
      }
    }
  }

  /** The volumes among the four entries. */
  method Parse(sector: Sector, deviceSize: u64) returns (parts: seq<Partition>)
    ensures parts == VolumesOf(TableOf(sector), deviceSize)
  {
    var all := ParseAllEntries(sector, deviceSize);
    parts := [];
    var i: nat := 0;
    while i < |all|
      invariant i <= |all| && parts == Retained(all[..i])
    {
      assert all[..i + 1] == all[..i] + [all[i]];
      RetainedAdd(all[..i], all[i]);
      if ShowsVolume(all[i]) { parts := parts + [all[i]]; }
      i := i + 1;
    }
    assert all[..i] == all;
    RetainedOfAll(TableOf(sector), deviceSize);
  }

  /** What `Parse` leaves out, with the slots it sits in. */
  method ReservedEntries(sector: Sector) returns (reserved: seq<ReservedEntry>)
    ensures reserved == ReservedOf(TableOf(sector))
  {
    reserved := [];
    var i: nat := 0;
    ghost var table := TableOf(sector);
    while i < ENTRY_COUNT
      invariant i <= ENTRY_COUNT && reserved == ReservedOf(table[..i])
    {
      var e := EntryAt(sector, i);
      assert table[..i + 1][..i] == table[..i];
      if e[4] != EMPTY && !(EntryRole(e[4]) == Volume && Count(e) != 0) {
        reserved := reserved + [ReservedEntry(i, e)];
      }
      i := i + 1;
    }
    assert table[..i] == table;
  }

  // ----- the two lists split the table

  /** A listed partition is the volume entry of its slot. */
  predicate PartFrom(table: Entries, deviceSize: u64, p: Partition) {
    && p.slot.Some? && p.slot.value < |table|
    && IsVolume(table[p.slot.value]) && p == PartitionOf(table[p.slot.value], p.slot.value, deviceSize)
  }

  /** A reserved entry is what is in its slot, and is neither empty nor a volume. */
  predicate ReservedFrom(table: Entries, r: ReservedEntry) {
    r.slot < |table| && r.bytes == table[r.slot] && IsReserved(r.bytes)
  }

  /** Every listed volume is the entry of its slot. */
  lemma {:induction false} VolumesFrom(table: Entries, deviceSize: u64, p: Partition)
    requires p in VolumesOf(table, deviceSize)
    ensures PartFrom(table, deviceSize, p)
  {
    var k := |table| - 1;
    if p in VolumesOf(table[..k], deviceSize) { VolumesFrom(table[..k], deviceSize, p); }
  }

  /** The volumes are listed in slot order. */
  lemma {:induction false} VolumesInOrder(table: Entries, deviceSize: u64, i: nat, j: nat)
    requires i < j < |VolumesOf(table, deviceSize)|
    ensures Before(VolumesOf(table, deviceSize)[i], VolumesOf(table, deviceSize)[j])
  {
    var k := |table| - 1;
    var init := VolumesOf(table[..k], deviceSize);
    if j < |init| {
      VolumesInOrder(table[..k], deviceSize, i, j);
    } else {
      VolumesFrom(table[..k], deviceSize, init[i]);
    }
  }

  predicate Before(p: Partition, q: Partition) {
    p.slot.Some? && q.slot.Some? && p.slot.value < q.slot.value
  }

  lemma {:induction false} ReservedFromTable(table: Entries, r: ReservedEntry)
    requires r in ReservedOf(table)
    ensures ReservedFrom(table, r)
  {
    var k := |table| - 1;
    if r in ReservedOf(table[..k]) { ReservedFromTable(table[..k], r); }
  }

  /** Every volume entry is listed. */
  lemma {:induction false} VolumeIsListed(table: Entries, deviceSize: u64, i: nat)
    requires i < |table| && IsVolume(table[i])
    ensures PartitionOf(table[i], i, deviceSize) in VolumesOf(table, deviceSize)
  {
    if i < |table| - 1 { VolumeIsListed(table[..|table| - 1], deviceSize, i); }
  }

  /** Every other entry that is not empty is kept. */
  lemma {:induction false} ReservedIsListed(table: Entries, i: nat)
    requires i < |table| && IsReserved(table[i])
    ensures ReservedEntry(i, table[i]) in ReservedOf(table)
  {
    if i < |table| - 1 { ReservedIsListed(table[..|table| - 1], i); }
  }
}
