/** Writing a whole GPT to a device, and probing it again. */
module GptWriter {
  import opened BlockDevice
  import opened Bytes
  import opened GptGeometry
  import opened GptRoundTrip
  import opened GptTable
  import opened PartitionTable
  import opened Sizes
  import opened Slots
  import opened Spans
  import opened Wrappers

  // ----- what is accepted

  /** A table the writer takes on a device of `total` sectors. */
  ghost predicate GptAccepts(total: int, parts: seq<Partition>, g: Geometry) {
    && g.UsableRange(total).Ok?
    && |parts| <= g.numEntries
    && (forall p :: p in parts ==> ValidEntry(p, g.UsableRange(total).value) && p.uuid.Some?)
    && PairwiseDisjoint(PartSpans(parts))
    && Assignable(SlotsOf(parts), g.numEntries, [])
  }

  method ValidateAll(parts: seq<Partition>, usable: Span) returns (r: Option<seq<Span>>)
    ensures r.Some? <==> forall p :: p in parts ==> ValidEntry(p, usable)
    ensures r.Some? ==> r.value == PartSpans(parts)
  {
    var spans: seq<Span> := [];
    var k: nat := 0;
    while k < |parts|
      invariant k <= |parts| && |spans| == k
      invariant forall i :: 0 <= i < k ==> ValidEntry(parts[i], usable) && spans[i] == SectorSpan(parts[i]).value
    {
      if !ValidEntry(parts[k], usable) {
        assert parts[k] in parts;
        return None;
      }
      spans := spans + [SectorSpan(parts[k]).value];
      k := k + 1;
    }
    r := Some(spans);
  }

  lemma {:induction false} SpansForward(parts: seq<Partition>, usable: Span)
    requires forall p :: p in parts ==> ValidEntry(p, usable) && SectorSpan(p).Some?
    ensures AllForward(PartSpans(parts))
  {
    forall i | 0 <= i < |parts| ensures PartSpans(parts)[i].Forward() {
      assert parts[i] in parts;
      AlignedSpan(parts[i]);
    }
  }

  /** The slots to write to, if the table is one to write. */
  method PlanGpt(total: int, parts: seq<Partition>, g: Geometry) returns (r: Result<seq<nat>>)
    ensures r.Ok? <==> GptAccepts(total, parts, g)
    ensures r.Ok? ==> Assigned(SlotsOf(parts), g.numEntries, [], r.value)
  {
    var usable := g.UsableRange(total);
    if usable.Err? { return Err(usable.error); }
    if |parts| > g.numEntries { return Err(Invalid); }
    var spans := ValidateAll(parts, usable.value);
    if spans.None? { return Err(Invalid); }
    SpansForward(parts, usable.value);
    var flags := MarkOverlaps(spans.value);
    NoneOverlapIsDisjoint(spans.value);
    if true in flags {
      assert exists i :: 0 <= i < |flags| && flags[i];
      return Err(Invalid);
    }
    assert forall i :: 0 <= i < |flags| ==> !flags[i];
    r := AssignSlots(SlotsOf(parts), g.numEntries, []);
    if r.Ok? && exists p :: p in parts && p.uuid.None? { r := Err(Invalid); }
  }

  lemma {:induction false} AcceptedIsPlanned(total: int, parts: seq<Partition>, g: Geometry, slots: seq<nat>)
    requires GptAccepts(total, parts, g) && Assigned(SlotsOf(parts), g.numEntries, [], slots)
    ensures Planned(parts, slots, g.numEntries, g.UsableRange(total).value)
  {
    forall j | 0 <= j < |parts| ensures ValidEntry(parts[j], g.UsableRange(total).value) && parts[j].uuid.Some? {
      assert parts[j] in parts;
    }
    forall i, j | 0 <= i < j < |parts| ensures !Overlap(SectorSpan(parts[i]).value, SectorSpan(parts[j]).value) {
      assert !Overlap(PartSpans(parts)[i], PartSpans(parts)[j]);
    }
  }

  // ----- what is written

  /** These bytes are at this offset. */
  predicate Holds(disk: seq<byte>, at: nat, bytes: seq<byte>) {
    at + |bytes| <= |disk| && disk[at..at + |bytes|] == bytes
  }

  lemma {:induction false} StoreHolds(disk: seq<byte>, at: nat, bytes: seq<byte>)
    requires at + |bytes| <= |disk|
    ensures Holds(Put(disk, at, bytes), at, bytes)
  {
    PutSlice(disk, at, bytes);
  }

  lemma {:induction false} StoreKeeps(disk: seq<byte>, at: nat, bytes: seq<byte>, lo: nat, held: seq<byte>)
    requires at + |bytes| <= |disk| && Holds(disk, lo, held) && (lo + |held| <= at || at + |bytes| <= lo)
    ensures Holds(Put(disk, at, bytes), lo, held)
  {
    PutApart(disk, at, bytes, lo, lo + |held|);
  }

  /** The byte ranges of a table's parts follow one another inside the device. */
  lemma {:induction false} ByteRegions(g: Geometry, size: nat)
    requires g.UsableRange(size / SECTOR).Ok?
    ensures var total, usable := size / SECTOR, g.UsableRange(size / SECTOR).value;
      var backup := total - 1 - g.ArraySectors();
      && 2 * SECTOR <= g.entryLba * SECTOR && g.entryLba * SECTOR + g.ArrayBytes() <= usable.first * SECTOR
      && usable.first * SECTOR < (usable.last + 1) * SECTOR <= backup * SECTOR
      && 0 <= backup && backup * SECTOR + g.ArrayBytes() <= (total - 1) * SECTOR
      && (total - 1) * SECTOR + SECTOR <= size
  {
    RegionsApart(g, size / SECTOR);
    var usable := g.UsableRange(size / SECTOR).value;
    var regions := Regions(g, size / SECTOR, usable);
    assert regions[5].Forward();
    ShapeBounds(g);
  }

  /** Bytes to store at an offset. */
  datatype Write = Write(at: nat, bytes: seq<byte>)

  predicate InBounds(writes: seq<Write>, size: nat) {
    forall i :: 0 <= i < |writes| ==> writes[i].at + |writes[i].bytes| <= size
  }

  predicate Clears(w: Write, lo: nat, len: nat) {
    lo + len <= w.at || w.at + |w.bytes| <= lo
  }

  predicate Separate(writes: seq<Write>) {
    forall i, j :: 0 <= i < j < |writes| ==> Clears(writes[j], writes[i].at, |writes[i].bytes|)
  }

  function Apply(disk: seq<byte>, writes: seq<Write>): (r: seq<byte>)
    requires InBounds(writes, |disk|)
    ensures |r| == |disk|
  {
    if writes == [] then disk
    else
      var k := |writes| - 1;
      Put(Apply(disk, writes[..k]), writes[k].at, writes[k].bytes)
  }

  /** What no store touches stays. */
  lemma {:induction false} ApplyKeeps(disk: seq<byte>, writes: seq<Write>, lo: nat, held: seq<byte>)
    requires InBounds(writes, |disk|) && Holds(disk, lo, held)
    requires forall i :: 0 <= i < |writes| ==> Clears(writes[i], lo, |held|)
    ensures Holds(Apply(disk, writes), lo, held)
  {
    if writes != [] {
      var k := |writes| - 1;
      ApplyKeeps(disk, writes[..k], lo, held);
      StoreKeeps(Apply(disk, writes[..k]), writes[k].at, writes[k].bytes, lo, held);
    }
  }

  lemma {:induction false} ApplyKeepsSlice(disk: seq<byte>, writes: seq<Write>, lo: nat, hi: nat)
    requires InBounds(writes, |disk|) && lo <= hi <= |disk| && forall i :: 0 <= i < |writes| ==>
      Clears(writes[i], lo, hi - lo)
    ensures Apply(disk, writes)[lo..hi] == disk[lo..hi]
  {
    ApplyKeeps(disk, writes, lo, disk[lo..hi]);
  }

  /** Separate stores all stay. */
  lemma {:induction false} ApplyHolds(disk: seq<byte>, writes: seq<Write>, i: nat)
    requires InBounds(writes, |disk|) && Separate(writes) && i < |writes|
    ensures Holds(Apply(disk, writes), writes[i].at, writes[i].bytes)
  {
    var k := |writes| - 1;
    if i == k {
      StoreHolds(Apply(disk, writes[..k]), writes[k].at, writes[k].bytes);
    } else {
      ApplyHolds(disk, writes[..k], i);
      assert Clears(writes[k], writes[i].at, |writes[i].bytes|);
      StoreKeeps(Apply(disk, writes[..k]), writes[k].at, writes[k].bytes, writes[i].at, writes[i].bytes);
    }
  }

  method WriteAll(dev: Device, writes: seq<Write>)
    requires dev.Valid() && dev.writable && InBounds(writes, |dev.bytes|)
    modifies dev
    ensures dev.Valid() && dev.bytes == Apply(old(dev.bytes), writes)
  {
    var k: nat := 0;
    while k < |writes|
      invariant k <= |writes| && dev.Valid() && dev.bytes == Apply(old(dev.bytes), writes[..k])
    {
      assert writes[..k + 1][..k] == writes[..k];
      var _ := dev.WriteAt(writes[k].at, writes[k].bytes);
      k := k + 1;
    }
    assert writes[..k] == writes;
  }

  /** The five stores of a table on a device of `size` bytes: boot sector, header, entries, and
      the backup of the last two. */
  function TableWrites(g: Geometry, size: nat, lba0: seq<byte>, primary: seq<byte>, data: seq<byte>,
                       backup: seq<byte>): seq<Write>
    requires g.UsableRange(size / SECTOR).Ok?
  {
    ByteRegions(g, size);
    var last := size / SECTOR - 1;
    [Write(0, lba0), Write(SECTOR, primary), Write(g.entryLba * SECTOR, data),
     Write((last - g.ArraySectors()) * SECTOR, data),
     Write(last * SECTOR, backup)]
  }

  /** They are apart from one another and from the room for partitions. */
  lemma {:induction false} TableWritesSeparate(g: Geometry, size: nat, lba0: seq<byte>, primary: seq<byte>,
      data: seq<byte>, backup: seq<byte>)
    requires g.UsableRange(size / SECTOR).Ok?
    requires |lba0| == |primary| == |backup| == SECTOR && |data| == g.ArrayBytes()
    ensures var writes, usable := TableWrites(g, size, lba0, primary, data, backup), g.UsableRange(size / SECTOR).value;
      && InBounds(writes, size) && Separate(writes)
      && forall i :: 0 <= i < |writes| ==>
           Clears(writes[i], usable.first * SECTOR, (usable.last + 1 - usable.first) * SECTOR)
  {
    ByteRegions(g, size);
  }

  /** So they leave that room as it was. */
  lemma {:induction false} TableWritesKeepRoom(disk: seq<byte>, g: Geometry, lba0: seq<byte>, primary: seq<byte>,
      data: seq<byte>, backup: seq<byte>,
                                               lo: int, hi: int)
    requires g.UsableRange(|disk| / SECTOR).Ok?
    requires |lba0| == |primary| == |backup| == SECTOR && |data| == g.ArrayBytes()
    requires lo == g.UsableRange(|disk| / SECTOR).value.first * SECTOR
    requires hi == (g.UsableRange(|disk| / SECTOR).value.last + 1) * SECTOR
    ensures InBounds(TableWrites(g, |disk|, lba0, primary, data, backup), |disk|)
    ensures 0 <= lo <= hi <= |disk|
    ensures Apply(disk, TableWrites(g, |disk|, lba0, primary, data, backup))[lo..hi] == disk[lo..hi]
  {
    ByteRegions(g, |disk|);
    TableWritesSeparate(g, |disk|, lba0, primary, data, backup);
    ApplyKeepsSlice(disk, TableWrites(g, |disk|, lba0, primary, data, backup), lo, hi);
  }
}
