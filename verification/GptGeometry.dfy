/** The shape of a GPT's entry array, and the usable range that follows from it. */
module GptGeometry {
  import opened Arithmetic
  import opened PartitionTable
  import opened Sizes
  import opened Spans
  import opened Wrappers

  const ENTRY_SIZE: int := 128
  const MAX_ENTRIES: int := 4096
  const MAX_ENTRY_SIZE: int := 4096
  /** The largest sector whose byte offset fits 64 bits. */
  const MAX_LBA: int := 0x7F_FFFF_FFFF_FFFF

  /** `declared` is the usable range the header of a table read off a disk states. */
  datatype Geometry = Geometry(numEntries: u32, entrySize: u32, entryLba: u64, declared: Option<Span>) {
    function ArrayBytes(): (r: int)
      ensures r >= 0
    {
      numEntries * entrySize
    }

    /** Sectors the entry array owns, the last one whole. */
    function ArraySectors(): (r: int)
      ensures r >= 0 && r * SECTOR >= ArrayBytes() > (r - 1) * SECTOR
    {
      (ArrayBytes() + SECTOR - 1) / SECTOR
    }

    predicate ShapeOk() {
      && 0 < numEntries <= MAX_ENTRIES
      && ENTRY_SIZE <= entrySize <= MAX_ENTRY_SIZE
      && entrySize % ENTRY_SIZE == 0 && IsPowerOfTwo(entrySize / ENTRY_SIZE)
      && 2 <= entryLba <= MAX_LBA
      && ArraySectors() <= MAX_LBA
      && entryLba + ArraySectors() <= MAX_LBA
    }

    /** The sectors partitions may use on a device of `total` sectors. */
    function UsableRange(total: int): Result<Span> {
      if !ShapeOk() then Err(Invalid)
      else
        var first := entryLba + ArraySectors();
        var reserve := ArraySectors() + 1;
        if total <= first + reserve then Err(DeviceTooSmall)
        else
          var last := total - 1 - reserve;
          match declared
          case None => Ok(Span(first, last))
          case Some(d) =>
            if d.first < first || d.last > last || d.first > d.last then Err(Invalid) else Ok(d)
    }
  }

  const CANONICAL: Geometry := Geometry(128, 128, 2, None)

  predicate IsPowerOfTwo(n: nat) {
    n == 1 || (n > 0 && n % 2 == 0 && IsPowerOfTwo(n / 2))
  }

  /** The whole of a table on a device of `total` sectors: the boot sector, the header, the
      entry array, the backup array, the backup header, and the room for partitions. */
  function Regions(g: Geometry, total: int, usable: Span): seq<Span> {
    var last := total - 1;
    [Span(0, 0), Span(1, 1), Span(g.entryLba, g.entryLba + g.ArraySectors() - 1),
     Span(last - g.ArraySectors(), last - 1), Span(last, last), usable]
  }

  lemma {:induction false} ShapeBounds(g: Geometry)
    requires g.ShapeOk()
    ensures 128 <= g.ArrayBytes() <= MAX_ENTRIES * MAX_ENTRY_SIZE
    ensures 1 <= g.ArraySectors() <= 32768
  {
    MulMonotone(1, g.numEntries, g.entrySize);
    MulMonotone(g.numEntries, MAX_ENTRIES, g.entrySize);
  }

  /** On every device an accepted geometry fits, the parts of the table are apart from one
      another, inside the device, and apart from the room for partitions. */
  lemma {:induction false} RegionsApart(g: Geometry, total: int)
    requires g.UsableRange(total).Ok?
    ensures AllForward(Regions(g, total, g.UsableRange(total).value))
    ensures PairwiseDisjoint(Regions(g, total, g.UsableRange(total).value))
    ensures forall i :: 0 <= i < 6 ==>
      0 <= Regions(g, total, g.UsableRange(total).value)[i].first && Regions(g, total,
          g.UsableRange(total).value)[i].last < total
  {
    ShapeBounds(g);
  }

  /** No sum in the usable range leaves 64 bits, whatever the device. */
  lemma {:induction false} UsableRangeFits(g: Geometry)
    requires g.ShapeOk()
    ensures g.entryLba + g.ArraySectors() < U64 && g.entryLba + g.ArraySectors() + g.ArraySectors() + 1 < U64
    ensures (g.entryLba + g.ArraySectors()) * SECTOR < U64
  {
    ShapeBounds(g);
  }

  /** A range taken from one table's header is accepted again on the same device. */
  lemma {:induction false} DeclaredIsKept(g: Geometry, total: int)
    requires g.UsableRange(total).Ok?
    ensures g.(declared := Some(g.UsableRange(total).value)).UsableRange(total) == g.UsableRange(total)
  {
    var usable := g.UsableRange(total).value;
    var h := g.(declared := Some(usable));
    assert h.ArraySectors() == g.ArraySectors();
    RegionsApart(g, total);
    assert Regions(g, total, usable)[5].Forward();
  }
}
