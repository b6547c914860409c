/** Reading the partition table of a device: which table it is, what it holds, and whether its
    two copies agree. */
module Probing {
  import opened GptEntries
  import opened GptGeometry
  import opened GptHeader
  import opened MbrTable
  import opened PartitionTable
  import opened Sizes
  import opened Spans
  import opened Wrappers

  /** The bytes of a device whose size fits 64 bits. */
  type Disk = b: seq<byte> | |b| < 0x1_0000_0000_0000_0000

  function ReadAt(disk: Disk, at: nat, len: nat): Result<seq<byte>> {
    if at + len <= |disk| then Ok(disk[at..at + len]) else Err(OutOfBounds)
  }

  // ----- the entry array

  /** The entries a header names, their checksum right. */
  function ReadEntries(disk: Disk, h: Header, crc: Crc): (r: Result<EntryList>)
    requires EntrySizeOk(h.entrySize) && h.numEntries <= MAX_ENTRIES
  {
    var at, len := h.entryLba * SECTOR, h.numEntries * h.entrySize;
    if at >= U64 || at + len >= U64 || (|disk| != 0 && at + len > |disk|) then Err(Corrupt)
    else
      match ReadAt(disk, at, len)
      case Err(e) => Err(e)
      case Ok(data) =>
        if crc(data) != h.entriesCrc then Err(EntriesCrc) else Ok(Cut(data, h.numEntries, h.entrySize))
  }

  function UsableOf(h: Header): Span {
    Span(h.firstUsable, h.lastUsable)
  }

  function ParseEntryArray(disk: Disk, h: Header, crc: Crc): Result<seq<Partition>>
    requires EntrySizeOk(h.entrySize) && h.numEntries <= MAX_ENTRIES
  {
    match ReadEntries(disk, h, crc)
    case Err(e) => Err(e)
    case Ok(entries) => EntriesRead(entries, UsableOf(h), |disk|)
  }

  /** The header at `lba`, if it says it is there, and the partitions it names. */
  function ParseCopy(disk: Disk, lba: nat, crc: Crc): Result<seq<Partition>> {
    match ReadAt(disk, lba * SECTOR, SECTOR)
    case Err(e) => Err(e)
    case Ok(sector) =>
      match ParseHeader(sector, crc)
      case Err(e) => Err(e)
      case Ok(h) => if h.myLba != lba then Err(Corrupt) else ParseEntryArray(disk, h, crc)
  }

  function ParseBackup(disk: Disk, crc: Crc): Result<seq<Partition>> {
    if |disk| < 2 * SECTOR then Err(Corrupt) else ParseCopy(disk, |disk| / SECTOR - 1, crc)
  }

  // ----- comparing the two copies

  /** In order of their starts, equal ones as they were. */
  function SortedByStart(parts: seq<Partition>): (r: seq<Partition>)
    ensures |r| == |parts|
  {
    if parts == [] then [] else InsertByStart(SortedByStart(parts[..|parts| - 1]), parts[|parts| - 1])
  }

  function InsertByStart(sorted: seq<Partition>, p: Partition): (r: seq<Partition>)
    ensures |r| == |sorted| + 1
  {
    if sorted == [] || sorted[|sorted| - 1].start <= p.start then sorted + [p]
    else InsertByStart(sorted[..|sorted| - 1], p) + [sorted[|sorted| - 1]]
  }

  /** Same range, UUID, type, slot and name. */
  predicate SamePartition(a: Partition, b: Partition) {
    && a.start == b.start && a.length == b.length && a.uuid == b.uuid
    && a.kind == b.kind && a.slot == b.slot && a.name == b.name
  }

  /** Both copies list the same partitions. */
  predicate BackupAgrees(disk: Disk, primary: seq<Partition>, crc: Crc) {
    match ParseBackup(disk, crc)
    case Err(_) => false
    case Ok(backup) => |backup| == |primary| && AllSame(SortedByStart(primary), SortedByStart(backup))
  }

  predicate AllSame(a: seq<Partition>, b: seq<Partition>) {
    |a| == |b| && forall i :: 0 <= i < |a| ==> SamePartition(a[i], b[i])
  }

  lemma {:induction false} InsertKeeps(sorted: seq<Partition>, p: Partition)
    ensures multiset(InsertByStart(sorted, p)) == multiset(sorted) + multiset{p}
  {
    if !(sorted == [] || sorted[|sorted| - 1].start <= p.start) {
      InsertKeeps(sorted[..|sorted| - 1], p);
      assert sorted == sorted[..|sorted| - 1] + [sorted[|sorted| - 1]];
    }
  }

  lemma {:induction false} SortKeeps(parts: seq<Partition>)
    ensures multiset(SortedByStart(parts)) == multiset(parts)
  {
    if parts != [] {
      SortKeeps(parts[..|parts| - 1]);
      InsertKeeps(SortedByStart(parts[..|parts| - 1]), parts[|parts| - 1]);
      assert parts == parts[..|parts| - 1] + [parts[|parts| - 1]];
    }
  }

  /** When the copies agree, every partition of either is in the other: same range, UUID, type,
      slot and name. */
  lemma {:induction false} AgreeingCopies(disk: Disk, primary: seq<Partition>, crc: Crc, p: Partition)
    requires BackupAgrees(disk, primary, crc)
    ensures p in primary ==> exists q :: q in ParseBackup(disk, crc).value && SamePartition(p, q)
    ensures p in ParseBackup(disk, crc).value ==> exists q :: q in primary && SamePartition(q, p)
  {
    var backup := ParseBackup(disk, crc).value;
    SameBothWays(primary, backup, p);
  }

  lemma {:induction false} SameBothWays(x: seq<Partition>, y: seq<Partition>, p: Partition)
    requires AllSame(SortedByStart(x), SortedByStart(y))
    ensures p in x ==> exists q :: q in y && SamePartition(p, q)
    ensures p in y ==> exists q :: q in x && SamePartition(q, p)
  {
    var a, b := SortedByStart(x), SortedByStart(y);
    SortKeeps(x);
    SortKeeps(y);
    assert p in multiset(x) <==> p in multiset(a);
    assert p in multiset(y) <==> p in multiset(b);
    if p in x {
      var i :| 0 <= i < |a| && a[i] == p;
      assert b[i] in multiset(b);
      assert b[i] in y && SamePartition(p, b[i]);
    }
    if p in y {
      var i :| 0 <= i < |b| && b[i] == p;
      assert a[i] in multiset(a);
      assert a[i] in x && SamePartition(a[i], p);
    }
  }

  // ----- the probe

  datatype Source = FromMbr | Primary | PrimaryBackupStale | RecoveredFromBackup

  datatype Probed = Probed(kind: TableKind, parts: seq<Partition>, source: Source)

  predicate IsProtective(table: Entries)
    requires |table| == ENTRY_COUNT
  {
    exists i ::
      && 0 <= i < ENTRY_COUNT && table[i][4] == GPT_PROTECTIVE
      && forall j :: 0 <= j < ENTRY_COUNT && j != i ==> table[j][4] == EMPTY
  }

  predicate HasGptMarker(table: Entries) {
    exists i :: 0 <= i < |table| && table[i][4] == GPT_PROTECTIVE
  }

  /** A GPT header where a disk of 4096-byte sectors keeps it. */
  predicate LooksLike4Kn(disk: Disk, crc: Crc) {
    var block := ReadAt(disk, 4096, 4096);
    block.Ok? && ParseHeader(block.value, crc).Ok? && ParseHeader(block.value, crc).value.myLba == 1
  }

  function RecoverFromBackup(disk: Disk, primary: Error, crc: Crc): Result<Probed> {
    match ParseBackup(disk, crc)
    case Ok(parts) => Ok(Probed(Gpt, parts, RecoveredFromBackup))
    case Err(_) => Err(primary)
  }

  function ProbeGpt(disk: Disk, consult: bool, crc: Crc): Result<Probed> {
    match ParseCopy(disk, 1, crc)
    case Ok(parts) =>
      Ok(Probed(Gpt, parts, if consult && !BackupAgrees(disk, parts, crc) then PrimaryBackupStale else Primary))
    case Err(e) => if consult then RecoverFromBackup(disk, e, crc) else Err(e)
  }

  function ProbeMbr(disk: Disk, lba0: Sector, consult: bool, crc: Crc): Result<Probed> {
    var table := TableOf(lba0);
    if lba0[510..512] != [0x55, 0xAA] then Err(NoPartitionTable)
    else if HasGptMarker(table) && LooksLike4Kn(disk, crc) then Err(UnsupportedSectorSize)
    else if IsProtective(table) then
      if consult then RecoverFromBackup(disk, Corrupt, crc) else Err(Corrupt)
    else Ok(Probed(Mbr, VolumesOf(table, |disk|), FromMbr))
  }

  /** Probe the disk: a GPT if its signature is there, or else an MBR. */
  function Probe(disk: Disk, consult: bool, crc: Crc): Result<Probed> {
    match ReadAt(disk, 0, SECTOR)
    case Err(e) => Err(e)
    case Ok(lba0) =>
      var lba1 := ReadAt(disk, SECTOR, SECTOR);
      if lba1.Ok? && lba1.value[..8] == SIGNATURE then ProbeGpt(disk, consult, crc)
      else ProbeMbr(disk, lba0, consult, crc)
  }

  // ----- the probe as it runs

  method ReadCopy(disk: Disk, lba: nat, crc: Crc) returns (r: Result<seq<Partition>>)
    ensures r == ParseCopy(disk, lba, crc)
  {
    var sector := ReadAt(disk, lba * SECTOR, SECTOR);
    if sector.Err? { return Err(sector.error); }
    var h := ParseHeader(sector.value, crc);
    if h.Err? { return Err(h.error); }
    if h.value.myLba != lba { return Err(Corrupt); }
    var entries := ReadEntries(disk, h.value, crc);
    if entries.Err? { return Err(entries.error); }
    r := ParseEntries(entries.value, UsableOf(h.value), |disk|);
  }

  method ReadBackup(disk: Disk, crc: Crc) returns (r: Result<seq<Partition>>)
    ensures r == ParseBackup(disk, crc)
  {
    if |disk| < 2 * SECTOR { return Err(Corrupt); }
    r := ReadCopy(disk, |disk| / SECTOR - 1, crc);
  }

  method CompareAll(a: seq<Partition>, b: seq<Partition>) returns (same: bool)
    requires |a| == |b|
    ensures same <==> AllSame(a, b)
  {
    var i: nat := 0;
    while i < |a|
      invariant i <= |a| && forall k :: 0 <= k < i ==> SamePartition(a[k], b[k])
    {
      if !SamePartition(a[i], b[i]) { return false; }
      i := i + 1;
    }
    same := true;
  }

  /** Compare the copies partition by partition, each in order of start. */
  method ValidateBackup(disk: Disk, primary: seq<Partition>, crc: Crc) returns (agrees: bool)
    ensures agrees == BackupAgrees(disk, primary, crc)
  {
    var backup := ReadBackup(disk, crc);
    if backup.Err? || |backup.value| != |primary| { return false; }
    agrees := CompareAll(SortedByStart(primary), SortedByStart(backup.value));
  }

  method RunProbeGpt(disk: Disk, consult: bool, crc: Crc) returns (r: Result<Probed>)
    ensures r == ProbeGpt(disk, consult, crc)
  {
    var parts := ReadCopy(disk, 1, crc);
    if parts.Ok? {
      var agrees := true;
      if consult { agrees := ValidateBackup(disk, parts.value, crc); }
      r := Ok(Probed(Gpt, parts.value, if agrees then Primary else PrimaryBackupStale));
    } else if consult {
      var backup := ReadBackup(disk, crc);
      r := if backup.Ok? then Ok(Probed(Gpt, backup.value, RecoveredFromBackup)) else Err(parts.error);
    } else {
      r := Err(parts.error);
    }
  }

  /** Probe the disk. */
  method RunProbe(disk: Disk, consult: bool, crc: Crc) returns (r: Result<Probed>)
    ensures r == Probe(disk, consult, crc)
  {
    var lba0, lba1 := ReadAt(disk, 0, SECTOR), ReadAt(disk, SECTOR, SECTOR);
    if lba0.Err? { return Err(lba0.error); }
    if lba1.Ok? && lba1.value[..8] == SIGNATURE {
      r := RunProbeGpt(disk, consult, crc);
      return;
    }
    var table := TableOf(lba0.value);
    if lba0.value[510..512] != [0x55, 0xAA] { return Err(NoPartitionTable); }
    if HasGptMarker(table) && LooksLike4Kn(disk, crc) { return Err(UnsupportedSectorSize); }
    if IsProtective(table) {
      if !consult { return Err(Corrupt); }
      var backup := ReadBackup(disk, crc);
      return if backup.Ok? then Ok(Probed(Gpt, backup.value, RecoveredFromBackup)) else Err(Corrupt);
    }
    var parts := Parse(lba0.value, |disk|);
    r := Ok(Probed(Mbr, parts, FromMbr));
  }

  // ----- entry tails

  /** Every used entry's bytes past the standard ones, under its own UUID; two entries may not
      share one and differ. */
  ghost predicate TailsAre(entries: seq<Image>, tails: map<Guid, seq<byte>>) {
    && (forall i :: 0 <= i < |entries| && !IsUnused(entries[i]) ==>
          Uuid(entries[i]) in tails && tails[Uuid(entries[i])] == Tail(entries[i]))
    && (forall u :: u in tails ==> exists i :: 0 <= i < |entries| && !IsUnused(entries[i]) && Uuid(entries[i]) == u)
  }

  /** Collect the tails, or find two entries that cannot be kept apart. */
  method EntryTails(entries: seq<Image>) returns (r: Option<map<Guid, seq<byte>>>)
    ensures r.Some? ==> TailsAre(entries, r.value)
    ensures r.None? ==> forall tails :: !TailsAre(entries, tails)
  {
    var out: map<Guid, seq<byte>> := map[];
    var i: nat := 0;
    while i < |entries|
      invariant i <= |entries| && TailsAre(entries[..i], out)
    {
      var e := entries[i];
      if !IsUnused(e) {
        if Uuid(e) in out && out[Uuid(e)] != Tail(e) {
          TailsClash(entries, i, out);
          return None;
        }
      }
      TailsNext(entries, i, out);
      if !IsUnused(e) { out := out[Uuid(e) := Tail(e)]; }
      i := i + 1;
    }
    assert entries[..i] == entries;
    r := Some(out);
  }

  lemma {:induction false} TailsNext(entries: seq<Image>, i: nat, out: map<Guid, seq<byte>>)
    requires i < |entries| && TailsAre(entries[..i], out)
    requires !IsUnused(entries[i]) && Uuid(entries[i]) in out ==> out[Uuid(entries[i])] == Tail(entries[i])
    ensures TailsAre(entries[..i + 1], if IsUnused(entries[i]) then out else out[Uuid(entries[i]) := Tail(entries[i])])
  {
    var prev, next := entries[..i], entries[..i + 1];
    var more := if IsUnused(entries[i]) then out else out[Uuid(entries[i]) := Tail(entries[i])];
    assert forall k :: 0 <= k < i ==> next[k] == prev[k];
    assert next[i] == entries[i];
    forall u | u in more
      ensures exists k :: 0 <= k < |next| && !IsUnused(next[k]) && Uuid(next[k]) == u
    {
      if u in out {
        var k :| 0 <= k < |prev| && !IsUnused(prev[k]) && Uuid(prev[k]) == u;
        assert next[k] == prev[k];
      } else {
        assert Uuid(next[i]) == u;
      }
    }
  }

  lemma {:induction false} TailsClash(entries: seq<Image>, i: nat, out: map<Guid, seq<byte>>)
    requires i < |entries| && TailsAre(entries[..i], out) && !IsUnused(entries[i])
    requires Uuid(entries[i]) in out && out[Uuid(entries[i])] != Tail(entries[i])
    ensures forall tails :: !TailsAre(entries, tails)
  {
    var k :| 0 <= k < |entries[..i]| && !IsUnused(entries[..i][k]) && Uuid(entries[..i][k]) == Uuid(entries[i]);
    assert entries[..i][k] == entries[k] && Tail(entries[k]) != Tail(entries[i]);
  }
}
