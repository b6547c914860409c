/** One editing session after another: a set read from a disk, edited, committed, and read again. */
module EditingSessions {
  import opened BlockDevice
  import opened Bytes
  import opened Editing
  import opened GptCommit
  import opened GptEntries
  import opened GptGeometry
  import opened GptHeader
  import opened GptRoundTrip
  import opened GptTable
  import opened HybridMbr
  import opened MbrTable
  import opened PartitionEditor
  import opened PartitionTable
  import opened Probing
  import opened Sizes
  import opened Slots
  import opened Spans
  import opened Wrappers

  // ----- a set read from a disk

  /** Every partition's end fits 64 bits. */
  predicate AllSpansFit(parts: seq<Partition>) {
    forall i :: 0 <= i < |parts| ==> SectorSpan(parts[i]).Some?
  }

  /** A probe that finds a GPT read its primary copy. */
  lemma {:induction false} ProbedGpt(disk: Disk, crc: Crc)
    requires Probe(disk, false, crc).Ok? && Probe(disk, false, crc).value.kind == Gpt
    ensures 2 * SECTOR <= |disk| && ParseHeader(disk[SECTOR..2 * SECTOR], crc).Ok?
    ensures var h := ParseHeader(disk[SECTOR..2 * SECTOR], crc).value;
      && EntrySizeOk(h.entrySize) && h.numEntries <= MAX_ENTRIES
      && ReadEntries(disk, h, crc).Ok?
      && EntriesRead(ReadEntries(disk, h, crc).value, UsableOf(h), |disk|) == Ok(Probe(disk, false, crc).value.parts)
  {
    assert Probe(disk, false, crc) == ProbeGpt(disk, false, crc);
    assert ParseCopy(disk, 1, crc) == Ok(Probe(disk, false, crc).value.parts);
  }

  /** Tails there are to collect are no two of one UUID and different. */
  ghost predicate Collectable(entries: EntryList, entrySize: nat) {
    entrySize > STANDARD_BYTES ==> exists tails :: TailsAre(entries, tails)
  }

  /** The tails of a set: none for standard entries. */
  ghost predicate TailsFound(entries: EntryList, entrySize: nat, tails: Tails) {
    if entrySize > STANDARD_BYTES then TailsAre(entries, tails) else tails == map[]
  }

  /** The entry tails of a disk's GPT, none for standard entries. */
  method LoadTails(disk: Disk, h: Header, crc: Crc) returns (r: Result<Tails>)
    requires EntrySizeOk(h.entrySize) && h.numEntries <= MAX_ENTRIES && ReadEntries(disk, h, crc).Ok?
    ensures r.Ok? <==> Collectable(ReadEntries(disk, h, crc).value, h.entrySize)
    ensures r.Ok? ==> TailsFound(ReadEntries(disk, h, crc).value, h.entrySize, r.value)
  {
    if h.entrySize <= STANDARD_BYTES { return Ok(map[]); }
    var entries := ReadEntries(disk, h, crc);
    var tails := EntryTails(entries.value);
    r := if tails.Some? then Ok(tails.value) else Err(Corrupt);
  }

  /** The entries of LBA 0 that a set read from a GPT disk keeps. */
  function FoundIn(disk: Disk): seq<ReservedEntry> {
    if |disk| >= SECTOR then FoundAt(disk[..SECTOR]) else []
  }

  /** The header and entries of the primary copy. */
  ghost predicate GptRead(disk: Disk, crc: Crc, h: Header, entries: EntryList) {
    && 2 * SECTOR <= |disk| && ParseHeader(disk[SECTOR..2 * SECTOR], crc) == Ok(h)
    && EntrySizeOk(h.entrySize) && h.numEntries <= MAX_ENTRIES && ReadEntries(disk, h, crc) == Ok(entries)
  }

  /** A set can be read from the disk: there is a table, and the tails of a GPT can be collected. */
  ghost predicate Loadable(disk: Disk, crc: Crc) {
    && Probe(disk, false, crc).Ok?
    && (Probe(disk, false, crc).value.kind == Gpt ==>
          forall h, entries :: GptRead(disk, crc, h, entries) ==> Collectable(entries, h.entrySize))
  }

  /** What is read from the disk, the whole of it. */
  ghost predicate LoadedFrom(disk: Disk, crc: Crc, parts: seq<Partition>, t: Target, guid: Guid, tails: Tails) {
    && |disk| >= SECTOR && Probe(disk, false, crc).Ok? && parts == Probe(disk, false, crc).value.parts
    && match Probe(disk, false, crc).value.kind
       case Mbr =>
         t == Target(Mbr, |disk|, CANONICAL, ReservedOf(TableOf(disk[..SECTOR]))) && guid == UNUSED && tails == map[]
       case Gpt =>
         exists h, entries :: GptRead(disk, crc, h, entries)
           && t == Target(Gpt, |disk|, GeometryOf(h), FoundIn(disk)) && guid == h.diskGuid
           && TailsFound(entries, h.entrySize, tails)
  }

  /** The set of a disk's partitions, ready for editing. */
  method FromProbe(disk: Disk, crc: Crc) returns (r: Result<PartitionSet>)
    ensures r.Ok? <==> Loadable(disk, crc)
    ensures r.Ok? ==> fresh(r.value)
    ensures r.Ok? ==> LoadedFrom(disk, crc, r.value.parts, r.value.target, r.value.diskGuid, r.value.tails)
    ensures r.Ok? && r.value.target.kind == Gpt && AllSpansFit(r.value.parts) ==> Exact(r.value.parts, r.value.target)
  {
    var probed := RunProbe(disk, false, crc);
    if probed.Err? { return Err(probed.error); }
    var parts := probed.value.parts;
    if probed.value.kind == Mbr {
      var reserved := ReservedEntries(disk[..SECTOR]);
      var loaded := new PartitionSet(Target(Mbr, |disk|, CANONICAL, reserved), UNUSED, parts, map[]);
      return Ok(loaded);
    }
    ProbedGpt(disk, crc);
    var header := ParseHeader(disk[SECTOR..2 * SECTOR], crc);
    var h := header.value;
    ghost var entries := ReadEntries(disk, h, crc).value;
    assert GptRead(disk, crc, h, entries);
    var tails := LoadTails(disk, h, crc);
    if tails.Err? { return Err(tails.error); }
    var t := Target(Gpt, |disk|, GeometryOf(h), FoundIn(disk));
    if AllSpansFit(parts) { ProbedExact(entries, UsableOf(h), |disk|, parts, t); }
    var loaded := new PartitionSet(t, h.diskGuid, parts, tails.value);
    r := Ok(loaded);
  }

  // ----- a committed set read again

  /** Each slot's partition says which slot it is in. */
  ghost predicate Labelled(table: seq<Option<Partition>>) {
    forall s: nat :: s < |table| && table[s].Some? ==> table[s].value.slot == Some(s)
  }

  lemma {:induction false} PresentLabels(table: seq<Option<Partition>>, i: nat)
    requires Labelled(table) && i < |Present(table)|
    ensures |Present(table)| <= |table| && Present(table)[i].slot.Some?
    ensures Present(table)[i].slot.value < |table| && table[Present(table)[i].slot.value] == Some(Present(table)[i])
  {
    var k := |table| - 1;
    assert Labelled(table[..k]);
    PresentCount(table[..k]);
    if i < |Present(table[..k])| { PresentLabels(table[..k], i); }
  }

  lemma {:induction false} PresentCount(table: seq<Option<Partition>>)
    ensures |Present(table)| <= |table|
  {
    if table != [] { PresentCount(table[..|table| - 1]); }
  }

  /** The partitions of a table come in slot order. */
  lemma {:induction false} PresentInOrder(table: seq<Option<Partition>>, i: nat, j: nat)
    requires Labelled(table) && i < j < |Present(table)|
    ensures Before(Present(table)[i], Present(table)[j])
  {
    var k := |table| - 1;
    assert Labelled(table[..k]);
    if j < |Present(table[..k])| {
      PresentInOrder(table[..k], i, j);
    } else {
      PresentLabels(table[..k], i);
    }
  }

  /** The partition a reader finds at position `i`: one of those written, in the slot it was given. */
  lemma {:induction false} ReadFrom(parts: seq<Partition>, slots: seq<nat>, n: nat, size: u64, i: nat) returns (j: nat)
    requires |parts| == |slots| && (forall j :: 0 <= j < |slots| ==> slots[j] < n) && n <= MAX_ENTRIES
    requires Distinct(slots) && i < |Present(SlotTable(parts, slots, n, size))|
    ensures j < |parts| && Present(SlotTable(parts, slots, n, size))[i] == AsRead(parts[j], slots[j], size)
  {
    var table := SlotTable(parts, slots, n, size);
    TableLabelled(parts, slots, n, size);
    PresentLabels(table, i);
    var s := Present(table)[i].slot.value;
    if s !in slots { SlotOfNone(parts, slots, n, size, s); }
    j :| 0 <= j < |slots| && slots[j] == s;
    SlotOfPart(parts, slots, n, size, j);
  }

  lemma {:induction false} TableLabelled(parts: seq<Partition>, slots: seq<nat>, n: nat, size: u64)
    requires |parts| == |slots| && (forall j :: 0 <= j < |slots| ==> slots[j] < n)
    requires n <= MAX_ENTRIES && Distinct(slots)
    ensures Labelled(SlotTable(parts, slots, n, size))
  {
    var table := SlotTable(parts, slots, n, size);
    forall s: nat | s < |table| && table[s].Some? ensures table[s].value.slot == Some(s) {
      if s !in slots { SlotOfNone(parts, slots, n, size, s); }
      var j: nat :| j < |slots| && slots[j] == s;
      SlotOfPart(parts, slots, n, size, j);
    }
  }

  /** The target of a set read from the disk a GPT set was committed to. */
  function Reloaded(t: Target, found: seq<ReservedEntry>): Target {
    t.(geometry := t.geometry.(declared := Some(t.Usable())), reserved := found)
  }

  lemma {:induction false} ReloadedUsable(t: Target, found: seq<ReservedEntry>)
    requires t.kind == Gpt && t.geometry.UsableRange(t.size / SECTOR).Ok?
    ensures Reloaded(t, found).Usable() == t.Usable()
  {
    DeclaredIsKept(t.geometry, t.size / SECTOR);
  }

  /** The partitions a reader finds on the disk a set was committed to. */
  function ReadBack(parts: seq<Partition>, t: Target, slots: seq<nat>): seq<Partition>
    requires |parts| == |slots| && t.SlotCount() <= MAX_ENTRIES
    requires forall j :: 0 <= j < |slots| ==> slots[j] < t.SlotCount()
  {
    Present(SlotTable(parts, slots, t.SlotCount(), t.size))
  }

  /** A sound set and the slots a commit gave it. */
  ghost predicate CommittedTo(parts: seq<Partition>, t: Target, slots: seq<nat>) {
    && Sound(parts, t) && t.kind == Gpt && t.geometry.UsableRange(t.size / SECTOR).Ok?
    && t.SlotCount() <= MAX_ENTRIES && Assigned(SlotsOf(parts), t.SlotCount(), [], slots)
  }

  lemma {:induction false} ReadPlaced(parts: seq<Partition>, t: Target, slots: seq<nat>, found: seq<ReservedEntry>)
    requires CommittedTo(parts, t, slots)
    ensures AllWellPlaced(ReadBack(parts, t, slots), Reloaded(t, found))
  {
    var read := ReadBack(parts, t, slots);
    ReloadedUsable(t, found);
    forall i: nat | i < |read| ensures WellPlaced(read[i], t.Usable()) && KindFits(read[i], Gpt) {
      var j := ReadFrom(parts, slots, t.SlotCount(), t.size, i);
      assert WellPlaced(parts[j], t.Usable()) && KindFits(parts[j], Gpt);
    }
  }

  lemma {:induction false} ReadSlots(parts: seq<Partition>, t: Target, slots: seq<nat>)
    requires CommittedTo(parts, t, slots)
    ensures SlotsFree(SlotsOf(ReadBack(parts, t, slots)), t.SlotCount(), [])
    ensures |ReadBack(parts, t, slots)| <= t.SlotCount()
  {
    var n := t.SlotCount();
    var table, read := SlotTable(parts, slots, n, t.size), ReadBack(parts, t, slots);
    TableLabelled(parts, slots, n, t.size);
    PresentCount(table);
    forall i: nat | i < |read| ensures read[i].slot.Some? && read[i].slot.value < n { PresentLabels(table, i); }
    forall i: nat, k: nat | i < k < |read| ensures read[i].slot.value != read[k].slot.value {
      PresentInOrder(table, i, k);
    }
  }

  /** What was sound when it was committed is sound when it is read again, so the next session
      starts where this one ended. */
  lemma {:induction false} ReloadedSound(parts: seq<Partition>, t: Target, slots: seq<nat>, found: seq<ReservedEntry>)
    requires CommittedTo(parts, t, slots)
    ensures Sound(ReadBack(parts, t, slots), Reloaded(t, found))
  {
    var read := ReadBack(parts, t, slots);
    ReadPlaced(parts, t, slots, found);
    ReadSlots(parts, t, slots);
    forall i: nat, k: nat | i < k < |read|
      ensures !Overlap(SectorSpan(read[i]).value, SectorSpan(read[k]).value)
    {
      ReadApart(parts, t, slots, i, k);
    }
  }

  lemma {:induction false} ReadApart(parts: seq<Partition>, t: Target, slots: seq<nat>, i: nat, k: nat)
    requires CommittedTo(parts, t, slots) && i < k < |ReadBack(parts, t, slots)|
    ensures var read := ReadBack(parts, t, slots);
      && SectorSpan(read[i]).Some? && SectorSpan(read[k]).Some?
      && !Overlap(SectorSpan(read[i]).value, SectorSpan(read[k]).value)
  {
    var n := t.SlotCount();
    TableLabelled(parts, slots, n, t.size);
    PresentInOrder(SlotTable(parts, slots, n, t.size), i, k);
    var a := ReadFrom(parts, slots, n, t.size, i);
    var b := ReadFrom(parts, slots, n, t.size, k);
    assert a != b && WellPlaced(parts[a], t.Usable()) && WellPlaced(parts[b], t.Usable());
    assert !Overlap(SectorSpan(parts[if a < b then a else b]).value, SectorSpan(parts[if a < b then b else a]).value);
  }

  // ----- the next session

  /** The tails of a set read from the disk a plan was written to. */
  function TailsLeft(plan: Plan): Tails
    requires forall j :: 0 <= j < |plan.parts| ==> plan.parts[j].uuid.Some?
  {
    TailsKept(plan.parts, plan.tails, plan.g.entrySize)
  }

  function TailsKept(parts: seq<Partition>, tails: Tails, bytes: int): Tails
    requires forall j :: 0 <= j < |parts| ==> parts[j].uuid.Some?
  {
    if bytes > STANDARD_BYTES then TailsOf(parts, tails, bytes - STANDARD_BYTES) else map[]
  }

  /** The geometry of that set: the plan's, its usable range stated. */
  function Stated(plan: Plan, size: nat): Geometry
    requires plan.g.UsableRange(size / SECTOR).Ok?
  {
    plan.g.(declared := Some(plan.g.UsableRange(size / SECTOR).value))
  }

  lemma {:induction false} ReadOnDisk(disk: Disk, plan: Plan, crc: Crc)
    requires OnDisk(disk, plan, crc)
    ensures GptRead(disk, crc, PrimaryHeader(plan, |disk|, crc(Flatten(EntriesOf(plan)))), EntriesOf(plan))
  {
    HeaderThere(disk, plan, crc);
    EntriesOnDisk(disk, plan, crc);
  }

  lemma {:induction false} ProbeAgain(disk: Disk, plan: Plan, crc: Crc)
    requires OnDisk(disk, plan, crc)
    ensures Probe(disk, false, crc) == Ok(Probed(Gpt, Expected(plan, |disk|), Primary))
  {
    PrimaryReads(disk, plan, crc);
    SignatureThere(disk, plan, crc);
    assert ProbeGpt(disk, false, crc) == Ok(Probed(Gpt, Expected(plan, |disk|), Primary));
  }

  lemma {:induction false} PlannedUuids(plan: Plan, size: nat)
    requires Good(plan, size)
    ensures forall j :: 0 <= j < |plan.parts| ==> plan.parts[j].uuid.Some?
  {
    forall j | 0 <= j < |plan.parts| ensures plan.parts[j].uuid.Some? {
      assert ValidEntry(plan.parts[j], plan.g.UsableRange(size / SECTOR).value);
    }
  }

  lemma {:induction false} TailsSettled(entries: EntryList, entrySize: nat, expected: Tails, tails: Tails)
    requires entrySize > STANDARD_BYTES ==> TailsAre(entries, expected)
    ensures Collectable(entries, entrySize)
    ensures TailsFound(entries, entrySize, tails) <==>
      tails == if entrySize > STANDARD_BYTES then expected else map[]
  {
    if entrySize > STANDARD_BYTES && TailsAre(entries, tails) { TailsUnique(entries, expected, tails); }
  }

  lemma {:induction false} TailsOfEntries(parts: seq<Partition>, slots: seq<nat>, n: nat, bytes: nat, tails: Tails,
                                          usable: Span, found: Tails)
    requires Planned(parts, slots, n, usable) && bytes >= STANDARD_BYTES
    ensures Collectable(NewEntries(parts, slots, n, bytes, tails), bytes)
    ensures TailsFound(NewEntries(parts, slots, n, bytes, tails), bytes, found) <==>
      found == TailsKept(parts, tails, bytes)
  {
    TailsReadBack(parts, slots, n, bytes, tails, usable);
    TailsSettled(NewEntries(parts, slots, n, bytes, tails), bytes, TailsOf(parts, tails, bytes - STANDARD_BYTES),
                 found);
  }

  lemma {:induction false} TailsAgain(plan: Plan, size: nat, tails: Tails)
    requires Good(plan, size)
    ensures forall j :: 0 <= j < |plan.parts| ==> plan.parts[j].uuid.Some?
    ensures Collectable(EntriesOf(plan), plan.g.entrySize)
    ensures TailsFound(EntriesOf(plan), plan.g.entrySize, tails) <==> tails == TailsLeft(plan)
  {
    PlannedUuids(plan, size);
    TailsUnder(plan, plan.g.UsableRange(size / SECTOR).value, tails);
  }

  lemma {:induction false} TailsUnder(plan: Plan, usable: Span, tails: Tails)
    requires plan.g.ShapeOk() && Planned(plan.parts, plan.slots, plan.g.numEntries, usable)
    requires forall j :: 0 <= j < |plan.parts| ==> plan.parts[j].uuid.Some?
    ensures Collectable(EntriesOf(plan), plan.g.entrySize)
    ensures TailsFound(EntriesOf(plan), plan.g.entrySize, tails) <==> tails == TailsLeft(plan)
  {
    TailsOfEntries(plan.parts, plan.slots, plan.g.numEntries, plan.g.entrySize, plan.tails, usable, tails);
  }

  /** What is read from a GPT disk is settled by its header and its entries. */
  lemma {:induction false} LoadedAs(disk: Disk, crc: Crc, h: Header, entries: EntryList, found: seq<Partition>,
                                    parts: seq<Partition>, t: Target, guid: Guid, tails: Tails)
    requires GptRead(disk, crc, h, entries) && Probe(disk, false, crc) == Ok(Probed(Gpt, found, Primary))
    ensures Loadable(disk, crc) <==> Collectable(entries, h.entrySize)
    ensures LoadedFrom(disk, crc, parts, t, guid, tails) <==>
      && parts == found && t == Target(Gpt, |disk|, GeometryOf(h), FoundIn(disk)) && guid == h.diskGuid
      && TailsFound(entries, h.entrySize, tails)
  {
    assert forall x, y :: GptRead(disk, crc, x, y) ==> x == h && y == entries;
  }

  /** A disk that holds a planned table can be read, and what is read is exactly the plan's: its
      partitions as they read, its GUID, its shape with the usable range stated, and its tails. */
  lemma {:induction false} LoadsExactly(disk: Disk, plan: Plan, crc: Crc, parts: seq<Partition>, t: Target, guid: Guid,
                                        tails: Tails)
    requires OnDisk(disk, plan, crc)
    ensures (forall j :: 0 <= j < |plan.parts| ==> plan.parts[j].uuid.Some?) && Loadable(disk, crc)
    ensures LoadedFrom(disk, crc, parts, t, guid, tails) <==>
      && parts == Expected(plan, |disk|) && t == Target(Gpt, |disk|, Stated(plan, |disk|), FoundIn(disk))
      && guid == plan.diskGuid && tails == TailsLeft(plan)
  {
    var h := PrimaryHeader(plan, |disk|, crc(Flatten(EntriesOf(plan))));
    ReadOnDisk(disk, plan, crc);
    ProbeAgain(disk, plan, crc);
    TailsAgain(plan, |disk|, tails);
    GeometryOfPlan(plan, |disk|, crc(Flatten(EntriesOf(plan))));
    LoadedAs(disk, crc, h, EntriesOf(plan), Expected(plan, |disk|), parts, t, guid, tails);
  }

  lemma {:induction false} GeometryOfPlan(plan: Plan, size: nat, entriesCrc: u32)
    requires plan.g.UsableRange(size / SECTOR).Ok? && size < U64
    ensures GeometryOf(PrimaryHeader(plan, size, entriesCrc)) == Stated(plan, size)
    ensures PrimaryHeader(plan, size, entriesCrc).diskGuid == plan.diskGuid
    ensures PrimaryHeader(plan, size, entriesCrc).entrySize == plan.g.entrySize
  {
  }

  /** The next session starts with what this one committed. */
  ghost predicate Continues(plan: Plan, disk: seq<byte>, parts: seq<Partition>, t: Target, guid: Guid, tails: Tails) {
    && Good(plan, |disk|) && (forall j :: 0 <= j < |plan.parts| ==> plan.parts[j].uuid.Some?)
    && parts == Expected(plan, |disk|) && t == Target(Gpt, |disk|, Stated(plan, |disk|), FoundIn(disk))
    && guid == plan.diskGuid && tails == TailsLeft(plan)
  }

  /** A GPT commit leaves its plan on the disk. */
  lemma {:induction false} CommittedLoads(before: Disk, after: Disk, parts: seq<Partition>, t: Target, guid: Guid,
                                          tails: Tails, slots: seq<nat>, crc: Crc)
    requires t.kind == Gpt && Committed(before, after, parts, t, guid, tails, slots, crc)
    ensures |after| == |before| && OnDisk(after, Plan(parts, slots, t.geometry, guid, tails), crc)
  {
    var plan := Plan(parts, slots, t.geometry, guid, tails);
    WrittenOnDisk(before, plan, Lba0For(before, t.reserved, parts).value, crc);
  }

  /** What was sound when it was committed is sound when the next session reads it. */
  lemma {:induction false} ContinuesSound(plan: Plan, t: Target, disk: Disk, read: seq<Partition>, found: Target,
                                          id: Guid, left: Tails)
    requires t.kind == Gpt && t.size == |disk| && plan.g == t.geometry && Sound(plan.parts, t)
    requires Assigned(SlotsOf(plan.parts), t.SlotCount(), [], plan.slots)
    requires Continues(plan, disk, read, found, id, left)
    ensures found == Reloaded(t, FoundIn(disk)) && Sound(read, found)
  {
    ReloadedSound(plan.parts, t, plan.slots, FoundIn(disk));
  }

  /** A plan that a set's commit left on the disk. */
  ghost predicate Planning(disk: seq<byte>, plan: Plan, t: Target, crc: Crc) {
    && |disk| < U64 && OnDisk(disk, plan, crc) && t.kind == Gpt && plan.g == t.geometry
    && Assigned(SlotsOf(plan.parts), t.SlotCount(), [], plan.slots)
  }

  /** Read a set from a disk that a plan may have been left on. */
  method LoadAfter(disk: Disk, crc: Crc, ghost plan: Plan, ghost t: Target) returns (next: Result<PartitionSet>)
    ensures next.Ok? <==> Loadable(disk, crc)
    ensures next.Ok? ==> fresh(next.value)
    ensures Planning(disk, plan, t, crc) ==> next.Ok?
    ensures Planning(disk, plan, t, crc) ==>
      Continues(plan, disk, next.value.parts, next.value.target, next.value.diskGuid, next.value.tails)
    ensures Planning(disk, plan, t, crc) && t.size == |disk| && Sound(plan.parts, t) ==>
      Sound(next.value.parts, next.value.target)
  {
    next := FromProbe(disk, crc);
    if Planning(disk, plan, t, crc) {
      LoadsExactly(disk, plan, crc, [], t, UNUSED, map[]);
      var s := next.value;
      Continued(disk, plan, t, crc, s.parts, s.target, s.diskGuid, s.tails);
    }
  }

  /** Commit a set; `plan` is what it left on the disk. */
  method CommitPlan(now: PartitionSet, dev: Device, crc: Crc) returns (slots: Result<seq<nat>>, ghost plan: Plan)
    requires dev.Valid()
    modifies now, dev
    ensures dev.Valid() && |dev.bytes| == |old(dev.bytes)|
    ensures Sound(old(now.parts), now.target) ==> Sound(now.parts, now.target)
    ensures slots.Ok? ==> plan == Plan(old(now.parts), slots.value, now.target.geometry, now.diskGuid, now.tails)
    ensures slots.Ok? && now.target.kind == Gpt ==> Planning(dev.bytes, plan, now.target, crc)
  {
    ghost var before, parts, t := dev.bytes, now.parts, now.target;
    slots := now.CommitMut(dev, crc);
    plan := Plan(parts, if slots.Ok? then slots.value else [], t.geometry, now.diskGuid, now.tails);
    if slots.Ok? && t.kind == Gpt {
      CommittedLoads(before, dev.bytes, parts, t, now.diskGuid, now.tails, slots.value, crc);
    }
  }

  /** Commit a set, and read the disk again for the next session. */
  method NextSession(now: PartitionSet, dev: Device, crc: Crc)
    returns (slots: Result<seq<nat>>, next: Result<PartitionSet>)
    requires dev.Valid()
    modifies now, dev
    ensures dev.Valid() && |dev.bytes| == |old(dev.bytes)|
    ensures (next.Ok? <==> Loadable(dev.bytes, crc)) && (next.Ok? ==> fresh(next.value))
    ensures Sound(old(now.parts), now.target) ==> Sound(now.parts, now.target)
    ensures slots.Ok? && now.target.kind == Gpt ==> next.Ok?
    ensures slots.Ok? && now.target.kind == Gpt ==>
      Continues(Plan(old(now.parts), slots.value, now.target.geometry, now.diskGuid, now.tails), dev.bytes,
                next.value.parts, next.value.target, next.value.diskGuid, next.value.tails)
    ensures slots.Ok? && now.target.kind == Gpt && now.target.size == |dev.bytes| ==>
      (Sound(old(now.parts), now.target) ==> Sound(next.value.parts, next.value.target))
  {
    ghost var plan;
    slots, plan := CommitPlan(now, dev, crc);
    next := LoadAfter(dev.bytes, crc, plan, now.target);
  }

  lemma {:induction false} Continued(disk: Disk, plan: Plan, t: Target, crc: Crc, read: seq<Partition>, found: Target,
                                     id: Guid, left: Tails)
    requires OnDisk(disk, plan, crc) && LoadedFrom(disk, crc, read, found, id, left)
    requires t.kind == Gpt && plan.g == t.geometry && Assigned(SlotsOf(plan.parts), t.SlotCount(), [], plan.slots)
    ensures Continues(plan, disk, read, found, id, left)
    ensures t.size == |disk| && Sound(plan.parts, t) ==> Sound(read, found)
  {
    LoadsExactly(disk, plan, crc, read, found, id, left);
    if t.size == |disk| && Sound(plan.parts, t) { ContinuesSound(plan, t, disk, read, found, id, left); }
  }

  /** A GPT set that a whole run of sessions keeps: sound, for this disk. */
  ghost predicate InSession(now: PartitionSet, dev: Device)
    reads now, dev
  {
    && dev.Valid() && now.target.kind == Gpt && now.target.size == |dev.bytes|
    && Sound(now.parts, now.target)
  }

  /** One session: edits, a commit, and the disk read again. A refused commit leaves the set as it is. */
  method OneSession(now: PartitionSet, edits: seq<Edit>, dev: Device, crc: Crc) returns (next: PartitionSet)
    requires InSession(now, dev)
    modifies now, dev
    ensures InSession(next, dev) && |dev.bytes| == |old(dev.bytes)| && (next == now || fresh(next))
  {
    var _ := now.Run(edits, dev, crc);
    var slots, read := NextSession(now, dev, crc);
    next := if slots.Ok? then read.value else now;
  }

  /** Any number of sessions on one disk, each starting with what it reads there, keep the set sound. */
  method Sessions(start: PartitionSet, sessions: seq<seq<Edit>>, dev: Device, crc: Crc) returns (last: PartitionSet)
    requires InSession(start, dev)
    modifies start, dev
    ensures InSession(last, dev) && |dev.bytes| == |old(dev.bytes)|
  {
    last := start;
    var k: nat := 0;
    while k < |sessions|
      invariant InSession(last, dev) && |dev.bytes| == |old(dev.bytes)| && (last == start || fresh(last))
    {
      last := OneSession(last, sessions[k], dev, crc);
      k := k + 1;
    }
  }
}
