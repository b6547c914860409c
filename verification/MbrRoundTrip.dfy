/** What an MBR write does to the disk, and what reading it back gives. */
module MbrRoundTrip {
  import opened BlockDevice
  import opened Bytes
  import opened MbrTable
  import opened MbrWriter
  import opened PartitionTable
  import opened Sizes
  import opened Slots
  import opened Spans
  import opened Wrappers

  // ----- the write

  /** Every partition's span, unless one of the partitions is not valid. */
  method ValidateAll(parts: seq<Partition>, total: int) returns (r: Option<seq<Span>>)
    ensures r.Some? <==> forall p :: p in parts ==> ValidPartition(p, total)
    ensures r.Some? ==> r.value == PartSpans(parts)
  {
    var spans: seq<Span> := [];
    var k: nat := 0;
    while k < |parts|
      invariant k <= |parts| && |spans| == k
      invariant forall i :: 0 <= i < k ==> ValidPartition(parts[i], total) && spans[i] == SectorSpan(parts[i]).value
    {
      if !ValidPartition(parts[k], total) {
        assert parts[k] in parts;
        return None;
      }
      spans := spans + [SectorSpan(parts[k]).value];
      k := k + 1;
    }
    r := Some(spans);
  }

  method ReservedClaims(reserved: seq<ReservedEntry>) returns (claims: seq<Span>)
    ensures claims == ClaimsOf(reserved)
  {
    claims := [];
    var k: nat := 0;
    while k < |reserved|
      invariant k <= |reserved| && claims == ClaimsOf(reserved[..k])
    {
      assert reserved[..k + 1][..k] == reserved[..k];
      var c := reserved[k].Claim();
      if c.Some? { claims := claims + [c.value]; }
      k := k + 1;
    }
    assert reserved[..k] == reserved;
  }

  lemma {:induction false} ClaimsForward(reserved: seq<ReservedEntry>)
    ensures AllForward(ClaimsOf(reserved))
  {
    if reserved != [] { ClaimsForward(reserved[..|reserved| - 1]); }
  }

  lemma {:induction false} PartSpansForward(parts: seq<Partition>)
    requires forall p :: p in parts ==> SectorSpan(p).Some?
    ensures AllForward(PartSpans(parts))
  {
    forall i | 0 <= i < |parts| ensures PartSpans(parts)[i].Forward() {
      assert parts[i] in parts;
    }
  }

  /** Slots that were assigned name four entries. */
  lemma {:induction false} AssignedFits(parts: seq<Partition>, slots: seq<nat>, reserved: seq<ReservedEntry>,
                                        total: int)
    requires forall p :: p in parts ==> ValidPartition(p, total)
    requires Assignable(SlotsOf(parts), ENTRY_COUNT, ReservedSlots(reserved))
    requires Assigned(SlotsOf(parts), ENTRY_COUNT, ReservedSlots(reserved), slots)
    ensures SlotsFit(reserved) && TableFits(parts, slots) && Distinct(slots) && Distinct(ReservedSlots(reserved))
    ensures forall s :: s in slots ==> s !in ReservedSlots(reserved)
  {
    var rs := ReservedSlots(reserved);
    var claims := Claims(SlotsOf(parts), rs);
    ClaimsGrow(SlotsOf(parts), 0, rs);
    assert SlotsOf(parts)[..0] == [];
    ClaimsOkPrefix(rs, claims, ENTRY_COUNT);
    forall j | 0 <= j < |reserved| ensures reserved[j].slot < ENTRY_COUNT { assert rs[j] < ENTRY_COUNT; }
    forall j | 0 <= j < |parts| ensures parts[j].kind.MbrKind? { assert parts[j] in parts; }
  }

  /** The slots to write to, if the table is one to write. */
  method PlanMbr(total: int, parts: seq<Partition>, reserved: seq<ReservedEntry>) returns (r: Result<seq<nat>>)
    ensures r.Ok? <==> Accepts(total, parts, reserved)
    ensures r.Ok? ==> Assigned(SlotsOf(parts), ENTRY_COUNT, ReservedSlots(reserved), r.value)
  {
    if |parts| + |reserved| > ENTRY_COUNT { return Err(Invalid); }
    if total < SECTOR { return Err(DeviceTooSmall); }
    var spans := ValidateAll(parts, total);
    if spans.None? { return Err(Invalid); }
    var claims := ReservedClaims(reserved);
    PartSpansForward(parts);
    ClaimsForward(reserved);
    var clash := AnyNeighboursOverlap(spans.value + claims);
    if clash { return Err(Invalid); }
    r := AssignSlots(SlotsOf(parts), ENTRY_COUNT, ReservedSlots(reserved));
  }

  method StoreMbr(dev: Device, parts: seq<Partition>, slots: seq<nat>, reserved: seq<ReservedEntry>)
    requires dev.Valid() && dev.writable && |dev.bytes| >= SECTOR && SlotsFit(reserved) && TableFits(parts, slots)
    modifies dev
    ensures dev.Valid() && MbrWritten(old(dev.bytes), dev.bytes, parts, slots, reserved)
  {
    var sector := BuildSector(dev.bytes[..SECTOR], parts, slots, reserved);
    FirstSector(dev.bytes, sector);
    var _ := dev.WriteAt(0, sector);
  }

  lemma {:induction false} FirstSector(bytes: seq<byte>, sector: Sector)
    requires |bytes| >= SECTOR
    ensures var after := Put(bytes, 0, sector);
      && after[..SECTOR] == sector && after[SECTOR..] == bytes[SECTOR..]
      && after[..TABLE_START] == sector[..TABLE_START] && after[510..SECTOR] == sector[510..]
      && bytes[..SECTOR][..TABLE_START] == bytes[..TABLE_START]
  {
  }

  /** Write the table to the device's boot sector, or leave the device as it was. */
  method WriteMbr(dev: Device, parts: seq<Partition>, reserved: seq<ReservedEntry>) returns (r: Result<seq<nat>>)
    requires dev.Valid()
    modifies dev
    ensures dev.Valid()
    ensures r.Ok? <==> dev.writable && Accepts(|old(dev.bytes)|, parts, reserved)
    ensures r.Err? ==> dev.bytes == old(dev.bytes)
    ensures r.Ok? ==> Assigned(SlotsOf(parts), ENTRY_COUNT, ReservedSlots(reserved), r.value)
    ensures r.Ok? ==> MbrWritten(old(dev.bytes), dev.bytes, parts, r.value, reserved)
  {
    if !dev.writable { return Err(ReadOnly); }
    var total := |dev.bytes|;
    r := PlanMbr(total, parts, reserved);
    if r.Err? { return; }
    AssignedFits(parts, r.value, reserved, total);
    StoreMbr(dev, parts, r.value, reserved);
  }

  /** The boot sector holds the rewritten table; its code and the rest of the device are as before. */
  ghost predicate MbrWritten(before: seq<byte>, after: seq<byte>, parts: seq<Partition>, slots: seq<nat>,
                             reserved: seq<ReservedEntry>) {
    && |before| == |after| >= SECTOR && SlotsFit(reserved) && TableFits(parts, slots)
    && after[SECTOR..] == before[SECTOR..] && after[..TABLE_START] == before[..TABLE_START]
    && after[510..SECTOR] == [0x55, 0xAA]
    && TableOf(after[..SECTOR]) == NewTable(TableOf(before[..SECTOR]), parts, slots, reserved)
  }

  // ----- a table written back with nothing edited

  /** The entries a write reproduces: volumes whose status is active or nothing, and empty slots
      that are all zero. */
  predicate Canonical(table: Entries) {
    forall i :: 0 <= i < |table| ==>
      && (IsVolume(table[i]) ==> table[i][0] == 0 || table[i][0] == STATUS_ACTIVE)
      && (table[i][4] == EMPTY ==> table[i] == Zeros(16))
  }

  /** The slots a probed table assigns again. */
  lemma {:induction false} ProbedSlots(table: Entries, deviceSize: u64, slots: seq<nat>, j: nat)
    requires |table| == ENTRY_COUNT && j < |VolumesOf(table, deviceSize)|
    requires Assigned(SlotsOf(VolumesOf(table, deviceSize)), ENTRY_COUNT, ReservedSlots(ReservedOf(table)), slots)
    ensures PartFrom(table, deviceSize, VolumesOf(table, deviceSize)[j])
    ensures slots[j] == VolumesOf(table, deviceSize)[j].slot.value
  {
    VolumesFrom(table, deviceSize, VolumesOf(table, deviceSize)[j]);
  }

  /** One slot of the rewritten table. */
  lemma {:induction false} SlotRewritten(table: Entries, deviceSize: u64, slots: seq<nat>, i: nat)
    requires |table| == ENTRY_COUNT && i < ENTRY_COUNT
    requires TableFits(VolumesOf(table, deviceSize), slots) && SlotsFit(ReservedOf(table))
    requires Distinct(slots) && Distinct(ReservedSlots(ReservedOf(table)))
    requires forall s :: s in slots ==> s !in ReservedSlots(ReservedOf(table))
    requires Assigned(SlotsOf(VolumesOf(table, deviceSize)), ENTRY_COUNT, ReservedSlots(ReservedOf(table)), slots)
    ensures NewTable(table, VolumesOf(table, deviceSize), slots, ReservedOf(table))[i] ==
      if IsVolume(table[i]) then EntryFor(table[i], PartitionOf(table[i], i, deviceSize))
      else if IsReserved(table[i]) then table[i] else Zeros(16)
  {
    var parts, reserved := VolumesOf(table, deviceSize), ReservedOf(table);
    if IsVolume(table[i]) {
      VolumeIsListed(table, deviceSize, i);
      var j :| 0 <= j < |parts| && parts[j] == PartitionOf(table[i], i, deviceSize);
      ProbedSlots(table, deviceSize, slots, j);
      SlotOfPart(table, parts, slots, reserved, j);
    } else {
      if i in slots {
        var j :| 0 <= j < |slots| && slots[j] == i;
        ProbedSlots(table, deviceSize, slots, j);
        assert false;
      }
      SlotKept(table, parts, slots, reserved, i);
      if IsReserved(table[i]) {
        ReservedIsListed(table, i);
        var j :| 0 <= j < |reserved| && reserved[j] == ReservedEntry(i, table[i]);
        SlotOfReserved(reserved, j);
      } else {
        forall r | r in reserved ensures r.slot != i { ReservedFromTable(table, r); }
        SlotOfNone(reserved, i);
      }
    }
  }

  /** A probed table comes out of a write as it was exactly when it is canonical. */
  lemma {:induction false} TableRewritten(table: Entries, deviceSize: u64, slots: seq<nat>)
    requires |table| == ENTRY_COUNT
    requires TableFits(VolumesOf(table, deviceSize), slots) && SlotsFit(ReservedOf(table))
    requires Distinct(slots) && Distinct(ReservedSlots(ReservedOf(table)))
    requires forall s :: s in slots ==> s !in ReservedSlots(ReservedOf(table))
    requires Assigned(SlotsOf(VolumesOf(table, deviceSize)), ENTRY_COUNT, ReservedSlots(ReservedOf(table)), slots)
    ensures NewTable(table, VolumesOf(table, deviceSize), slots, ReservedOf(table)) == table <==> Canonical(table)
  {
    var rewritten := NewTable(table, VolumesOf(table, deviceSize), slots, ReservedOf(table));
    forall i | 0 <= i < |table|
      ensures rewritten[i] == table[i] <==>
        && (IsVolume(table[i]) ==> table[i][0] == 0 || table[i][0] == STATUS_ACTIVE)
        && (table[i][4] == EMPTY ==> table[i] == Zeros(16))
    {
      SlotRewritten(table, deviceSize, slots, i);
      if IsVolume(table[i]) { EntryRewritten(table[i], i, deviceSize); }
    }
  }

  /** Writing a probed table back with nothing edited leaves every byte of the device alone,
      exactly when its entries are canonical and it was signed. */
  lemma {:induction false} NoEditWrite(before: seq<byte>, after: seq<byte>, slots: seq<nat>, table: Entries)
    requires SECTOR <= |before| < U64 && table == TableOf(before[..SECTOR])
    requires Accepts(|before|, VolumesOf(table, |before|), ReservedOf(table))
    requires Assigned(SlotsOf(VolumesOf(table, |before|)), ENTRY_COUNT, ReservedSlots(ReservedOf(table)), slots)
    requires MbrWritten(before, after, VolumesOf(table, |before|), slots, ReservedOf(table))
    ensures after == before <==> Canonical(table) && before[510..SECTOR] == [0x55, 0xAA]
  {
    AssignedFits(VolumesOf(table, |before|), slots, ReservedOf(table), |before|);
    TableRewritten(table, |before|, slots);
    DeviceSame(before, after);
  }

  lemma {:induction false} DeviceSame(before: seq<byte>, after: seq<byte>)
    requires |before| == |after| >= SECTOR
    requires after[SECTOR..] == before[SECTOR..] && after[..TABLE_START] == before[..TABLE_START]
    ensures after == before <==>
      TableOf(after[..SECTOR]) == TableOf(before[..SECTOR]) && after[510..SECTOR] == before[510..SECTOR]
  {
    var s, t := before[..SECTOR], after[..SECTOR];
    SectorParts(s, t);
    assert s[..TABLE_START] == before[..TABLE_START] && t[..TABLE_START] == after[..TABLE_START];
    assert s[510..] == before[510..SECTOR] && t[510..] == after[510..SECTOR];
    assert before == s + before[SECTOR..] && after == t + after[SECTOR..];
  }

  // ----- a rewritten table read back

  /** A partition as the reader will report it. */
  function AsRead(p: Partition, slot: u32, deviceSize: u64): Partition {
    Partition(p.start, p.length, p.kind, None, None, Some(slot), NO_ISSUES,
              AvailableOnDevice(p.start, p.length, deviceSize))
  }

  predicate VolumeType(typeByte: byte) {
    typeByte != EMPTY && EntryRole(typeByte) == Volume
  }

  /** What a written partition's entry reads as: the partition, if its type byte is a volume's,
      and otherwise nothing. */
  lemma {:induction false} PartReadBack(prior: Entry, p: Partition, slot: u32, total: u64)
    requires ValidPartition(p, total)
    ensures IsVolume(EntryFor(prior, p)) <==> VolumeType(p.kind.typeByte)
    ensures PartitionOf(EntryFor(prior, p), slot, total) == AsRead(p, slot, total)
  {
    EntryReadBack(prior, p);
  }

  /** A table being written: what was there, what goes in, and where. */
  ghost predicate Writing(prior: Entries, parts: seq<Partition>, slots: seq<nat>, reserved: seq<ReservedEntry>,
                          total: u64) {
    && |prior| == ENTRY_COUNT && SlotsFit(reserved) && TableFits(parts, slots)
    && Distinct(slots) && Distinct(ReservedSlots(reserved))
    && (forall s :: s in slots ==> s !in ReservedSlots(reserved))
    && (forall p :: p in parts ==> ValidPartition(p, total))
  }

  /** Every partition with a volume's type is read from the written table. */
  lemma {:induction false} WrittenIsRead(prior: Entries, parts: seq<Partition>, slots: seq<nat>,
                                         reserved: seq<ReservedEntry>, total: u64, j: nat)
    requires Writing(prior, parts, slots, reserved, total) && j < |parts| && VolumeType(parts[j].kind.typeByte)
    ensures AsRead(parts[j], slots[j], total) in VolumesOf(NewTable(prior, parts, slots, reserved), total)
  {
    assert parts[j] in parts;
    SlotOfPart(prior, parts, slots, reserved, j);
    PartReadBack(prior[slots[j]], parts[j], slots[j], total);
    VolumeIsListed(NewTable(prior, parts, slots, reserved), total, slots[j]);
  }

  /** So is every kept entry that is a volume's. */
  lemma {:induction false} KeptIsRead(prior: Entries, parts: seq<Partition>, slots: seq<nat>,
                                      reserved: seq<ReservedEntry>, total: u64, k: nat)
    requires Writing(prior, parts, slots, reserved, total) && k < |reserved| && IsVolume(reserved[k].bytes)
    ensures PartitionOf(reserved[k].bytes, reserved[k].slot, total)
      in VolumesOf(NewTable(prior, parts, slots, reserved), total)
  {
    assert ReservedSlots(reserved)[k] == reserved[k].slot;
    SlotKept(prior, parts, slots, reserved, reserved[k].slot);
    SlotOfReserved(reserved, k);
    VolumeIsListed(NewTable(prior, parts, slots, reserved), total, reserved[k].slot);
  }

  /** A partition that was written is what is read. */
  ghost predicate ReadAsPart(parts: seq<Partition>, slots: seq<nat>, total: u64, p: Partition)
    requires TableFits(parts, slots)
  {
    exists j: nat :: j < |parts| && VolumeType(parts[j].kind.typeByte) && p == AsRead(parts[j], slots[j], total)
  }

  /** An entry that was kept is what is read. */
  ghost predicate ReadAsKept(reserved: seq<ReservedEntry>, total: u64, p: Partition) {
    exists k: nat :: k < |reserved| && IsVolume(reserved[k].bytes)
      && p == PartitionOf(reserved[k].bytes, reserved[k].slot, total)
  }

  /** Nothing else is. */
  lemma {:induction false} ReadWasWritten(prior: Entries, parts: seq<Partition>, slots: seq<nat>,
                                          reserved: seq<ReservedEntry>, total: u64, p: Partition)
    requires Writing(prior, parts, slots, reserved, total)
    requires p in VolumesOf(NewTable(prior, parts, slots, reserved), total)
    ensures ReadAsPart(parts, slots, total, p) || ReadAsKept(reserved, total, p)
  {
    var table := NewTable(prior, parts, slots, reserved);
    VolumesFrom(table, total, p);
    var i: nat := p.slot.value;
    if i in slots {
      var j: nat :| j < |slots| && slots[j] == i;
      assert parts[j] in parts;
      SlotOfPart(prior, parts, slots, reserved, j);
      PartReadBack(prior[i], parts[j], i, total);
    } else {
      SlotKept(prior, parts, slots, reserved, i);
      if k: nat :| k < |reserved| && reserved[k].slot == i {
        SlotOfReserved(reserved, k);
      } else {
        SlotOfNone(reserved, i);
        assert false;
      }
    }
  }

  /** The volumes read from a written table are exactly the partitions written with a volume's
      type, each in its assigned slot, and the kept entries that are volumes. */
  lemma {:induction false} WrittenReadsBack(prior: Entries, parts: seq<Partition>, slots: seq<nat>,
                                            reserved: seq<ReservedEntry>, total: u64, p: Partition)
    requires Writing(prior, parts, slots, reserved, total)
    ensures p in VolumesOf(NewTable(prior, parts, slots, reserved), total) <==>
      ReadAsPart(parts, slots, total, p) || ReadAsKept(reserved, total, p)
  {
    if p in VolumesOf(NewTable(prior, parts, slots, reserved), total) {
      ReadWasWritten(prior, parts, slots, reserved, total, p);
    }
    if j: nat :| j < |parts| && VolumeType(parts[j].kind.typeByte) && p == AsRead(parts[j], slots[j], total) {
      WrittenIsRead(prior, parts, slots, reserved, total, j);
    }
    if ReadAsKept(reserved, total, p) {
      var k: nat :| k < |reserved| && IsVolume(reserved[k].bytes)
        && p == PartitionOf(reserved[k].bytes, reserved[k].slot, total);
      KeptIsRead(prior, parts, slots, reserved, total, k);
    }
  }

  /** Every accepted write is one of these. */
  lemma {:induction false} AcceptedIsWriting(prior: Entries, parts: seq<Partition>, slots: seq<nat>,
                                             reserved: seq<ReservedEntry>, total: u64)
    requires |prior| == ENTRY_COUNT && Accepts(total, parts, reserved)
    requires Assigned(SlotsOf(parts), ENTRY_COUNT, ReservedSlots(reserved), slots)
    ensures Writing(prior, parts, slots, reserved, total)
  {
    AssignedFits(parts, slots, reserved, total);
  }

  // ----- what is accepted and does not come back

  /** A partition of one sector and this type, after the boot sector. */
  function OneSector(typeByte: byte): Partition {
    Partition(512, 512, MbrKind(typeByte, false), None, None, Some(0), NO_ISSUES, 512)
  }

  lemma {:induction false} OneSectorAccepted(p: Partition, total: u64)
    requires ValidPartition(p, total) && total >= SECTOR && p.slot == Some(0)
    ensures Accepts(total, [p], []) && Assigned(SlotsOf([p]), ENTRY_COUNT, [], [0])
  {
    assert SlotsOf([p]) == [Some(0)];
    assert Claims([Some(0)][..0], []) == [];
    assert Claims([Some(0)], []) == [0];
    assert ReservedSlots([]) == [];
  }

  /** A partition whose type is 0, or marks a container or a GPT, is taken and is not read back:
      whatever table was there, the one written shows no partition. */
  lemma {:induction false} HiddenType(prior: Entries, typeByte: byte)
    requires |prior| == ENTRY_COUNT && !VolumeType(typeByte)
    ensures Accepts(1024, [OneSector(typeByte)], [])
    ensures Assigned(SlotsOf([OneSector(typeByte)]), ENTRY_COUNT, ReservedSlots([]), [0])
    ensures VolumesOf(NewTable(prior, [OneSector(typeByte)], [0], []), 1024) == []
  {
    var parts := [OneSector(typeByte)];
    OneSectorAccepted(OneSector(typeByte), 1024);
    assert ReservedSlots([]) == [];
    AcceptedIsWriting(prior, parts, [0], [], 1024);
    var read := VolumesOf(NewTable(prior, parts, [0], []), 1024);
    if read != [] {
      ReadWasWritten(prior, parts, [0], [], 1024, read[0]);
      assert false;
    }
  }

  /** An entry for sector 1 with this status byte. */
  function StatusEntry(status: byte): (e: Entry)
    ensures e[0] == status && e[4] == 0x83
  {
    EntryBytes(status, Zeros(3), 0x83, Zeros(3), ToLE(1, 4), ToLE(1, 4))
  }

  /** A disk of two sectors whose boot sector holds that entry alone. */
  function StatusDisk(status: byte): (disk: seq<byte>)
    ensures |disk| == 1024
  {
    Zeros(446) + StatusEntry(status) + Zeros(48) + [0x55, 0xAA] + Zeros(512)
  }

  lemma {:induction false} StatusTable(status: byte)
    ensures TableOf(StatusDisk(status)[..SECTOR]) == Lone(StatusEntry(status))
  {
    var sector: Sector := StatusDisk(status)[..SECTOR];
    assert EntryAt(sector, 0) == StatusEntry(status);
    assert EntryAt(sector, 1) == Zeros(16) && EntryAt(sector, 2) == Zeros(16) && EntryAt(sector, 3) == Zeros(16);
  }

  /** A table with one volume, in its first slot. */
  function Lone(e: Entry): (table: Entries)
    ensures |table| == ENTRY_COUNT && table[0] == e
  {
    [e, Zeros(16), Zeros(16), Zeros(16)]
  }

  lemma {:induction false} LoneVolume(e: Entry, deviceSize: u64)
    requires IsVolume(e)
    ensures VolumesOf(Lone(e), deviceSize) == [PartitionOf(e, 0, deviceSize)] && ReservedOf(Lone(e)) == []
  {
    var table := Lone(e);
    LoneFirst(e, deviceSize);
    forall k | 1 <= k < ENTRY_COUNT
      ensures table[..k + 1][..k] == table[..k] && !IsVolume(table[k]) && !IsReserved(table[k])
    {
    }
    assert VolumesOf(table[..2], deviceSize) == VolumesOf(table[..1], deviceSize);
    assert VolumesOf(table[..3], deviceSize) == VolumesOf(table[..2], deviceSize);
    assert ReservedOf(table[..2]) == ReservedOf(table[..1]) && ReservedOf(table[..3]) == ReservedOf(table[..2]);
  }

  lemma {:induction false} LoneFirst(e: Entry, deviceSize: u64)
    requires IsVolume(e)
    ensures VolumesOf(Lone(e)[..1], deviceSize) == [PartitionOf(e, 0, deviceSize)] && ReservedOf(Lone(e)[..1]) == []
  {
    assert Lone(e)[..1] == [e] && [e][..0] == [];
  }

  lemma {:induction false} StatusValid(status: byte)
    ensures IsVolume(StatusEntry(status)) && ValidPartition(PartitionOf(StatusEntry(status), 0, 1024), 1024)
  {
    Widths();
    ToFromLE(1, 4);
    assert Start(StatusEntry(status)) == 1 && Count(StatusEntry(status)) == 1;
  }

  /** A disk with a lone volume the writer takes keeps its bytes only if the status byte is one of the
      writer's. */
  lemma {:induction false} LoneRewritten(before: seq<byte>, after: seq<byte>, e: Entry)
    requires SECTOR <= |before| < U64 && TableOf(before[..SECTOR]) == Lone(e) && IsVolume(e)
    requires ValidPartition(PartitionOf(e, 0, |before|), |before|)
    ensures Accepts(|before|, VolumesOf(Lone(e), |before|), ReservedOf(Lone(e)))
    ensures Assigned(SlotsOf(VolumesOf(Lone(e), |before|)), ENTRY_COUNT, ReservedSlots(ReservedOf(Lone(e))), [0])
    ensures TableFits(VolumesOf(Lone(e), |before|), [0])
    ensures MbrWritten(before, after, VolumesOf(Lone(e), |before|), [0], ReservedOf(Lone(e))) && after == before ==>
      e[0] == 0 || e[0] == STATUS_ACTIVE
  {
    LoneVolume(e, |before|);
    OneSectorAccepted(PartitionOf(e, 0, |before|), |before|);
    assert ReservedSlots([]) == [];
    if MbrWritten(before, after, VolumesOf(Lone(e), |before|), [0], ReservedOf(Lone(e))) {
      NoEditWrite(before, after, [0], Lone(e));
      assert IsVolume(Lone(e)[0]);
    }
  }

  /** A disk whose one entry has a status byte that is neither 0x00 nor 0x80 is taken with nothing
      edited, and every such write changes it. */
  lemma {:induction false} StatusLost(status: byte, after: seq<byte>)
    requires status != 0 && status != STATUS_ACTIVE
    ensures var before, table := StatusDisk(status), Lone(StatusEntry(status));
      && TableOf(before[..SECTOR]) == table && Accepts(1024, VolumesOf(table, 1024), ReservedOf(table))
      && Assigned(SlotsOf(VolumesOf(table, 1024)), ENTRY_COUNT, ReservedSlots(ReservedOf(table)), [0])
      && TableFits(VolumesOf(table, 1024), [0])
      && (MbrWritten(before, after, VolumesOf(table, 1024), [0], ReservedOf(table)) ==> after != before)
  {
    StatusTable(status);
    StatusValid(status);
    LoneRewritten(StatusDisk(status), after, StatusEntry(status));
  }
}
