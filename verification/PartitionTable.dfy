/** Partitions as a table describes them, and the rules an entry can break. */
module PartitionTable {
  import opened Sizes
  import opened Spans
  import opened Wrappers

  const MBR_LBA_MAX: int := 0xFFFF_FFFF

  type byte = b: int | 0 <= b < 256
  type u16 = n: int | 0 <= n < 0x1_0000
  type u32 = n: int | 0 <= n < 0x1_0000_0000
  type u64 = n: int | 0 <= n < 0x1_0000_0000_0000_0000
  type Guid = g: seq<byte> | |g| == 16 witness seq(16, _ => 0)

  datatype Error =
    | ReadOnly | OutOfBounds | NoPartitionTable | HeaderCrc | EntriesCrc | Corrupt | Invalid | DeviceTooSmall
    | UnsupportedSectorSize

  datatype Result<+T> = Ok(value: T) | Err(error: Error)

  datatype TableKind = Gpt | Mbr

  datatype Kind =
    | GptKind(typeGuid: Guid, attributes: u64)
    | MbrKind(typeByte: byte, active: bool)
    | Whole

  /** The rules an entry breaks, one flag for each bit. */
  datatype Issues = Issues(beforeFirst: bool, pastLast: bool, overlaps: bool)

  const NO_ISSUES := Issues(false, false, false)

  /** One partition, in bytes from the start of the device. */
  datatype Partition = Partition(start: u64, length: u64, kind: Kind, name: Option<string>, uuid: Option<Guid>,
                                 slot: Option<u32>, issues: Issues, available: u64)

  /** The sectors a partition occupies, unless it is empty or its end does not fit 64 bits. */
  function SectorSpan(p: Partition): Option<Span> {
    if p.length == 0 || p.start + p.length >= U64 then None
    else Some(Span(p.start / SECTOR, (p.start + p.length - 1) / SECTOR))
  }

  /** A span names exactly the sectors that hold some byte of the partition. */
  lemma {:induction false} SpanHoldsBytes(p: Partition, sector: int)
    requires SectorSpan(p).Some?
    ensures SectorSpan(p).value.first <= sector <= SectorSpan(p).value.last
       <==> exists b: int :: p.start <= b < p.start + p.length && b / SECTOR == sector
  {
    if SectorSpan(p).value.first <= sector <= SectorSpan(p).value.last {
      var b := if p.start / SECTOR == sector then p.start else sector * SECTOR;
      assert p.start <= b < p.start + p.length && b / SECTOR == sector;
    }
  }

  /** A partition made of whole sectors. */
  predicate SectorAligned(p: Partition) {
    p.start % SECTOR == 0 && p.length % SECTOR == 0
  }

  lemma {:induction false} AlignedSpan(p: Partition)
    requires SectorAligned(p) && p.length > 0 && p.start + p.length < U64
    ensures SectorSpan(p) == Some(Span(p.start / SECTOR, p.start / SECTOR + p.length / SECTOR - 1))
    ensures SectorSpan(p).value.Forward()
  {
  }

  /** Bytes of a partition that a device of this size holds. */
  function AvailableOnDevice(start: u64, length: u64, deviceSize: u64): (r: u64)
    ensures deviceSize != 0 && r > 0 ==> start + r <= deviceSize
    ensures r == length <==> deviceSize == 0 || length == 0 || start + length <= deviceSize
  {
    if deviceSize == 0 then length
    else
      var left := if deviceSize < start then 0 else deviceSize - start;
      if length < left then length else left
  }

  /** And as many of them as there are: `a` bytes from the start are on the device, or none. */
  lemma {:induction false} AvailableMost(start: u64, length: u64, deviceSize: u64, a: nat)
    requires a <= length && (deviceSize == 0 || a == 0 || start + a <= deviceSize)
    ensures a <= AvailableOnDevice(start, length, deviceSize) <= length
  {
  }

  /** Which rules of a usable range a span breaks. */
  function RangeIssues(s: Span, usable: Span): (r: Issues)
    ensures s.Forward() ==> (!r.beforeFirst && !r.pastLast <==> usable.first <= s.first && s.last <= usable.last)
    ensures !r.overlaps
  {
    Issues(s.first < usable.first, s.first > usable.last || s.last > usable.last, false)
  }

  // ----- whole lists

  function SlotsOf(parts: seq<Partition>): (r: seq<Option<nat>>)
    ensures |r| == |parts| && forall i :: 0 <= i < |r| ==> r[i] == parts[i].slot
  {
    seq(|parts|, i requires 0 <= i < |parts| => if parts[i].slot.Some? then Some(parts[i].slot.value as nat) else None)
  }

  function PartSpans(parts: seq<Partition>): (r: seq<Span>)
    requires forall p :: p in parts ==> SectorSpan(p).Some?
    ensures |r| == |parts| && forall i :: 0 <= i < |r| ==> r[i] == SectorSpan(parts[i]).value
  {
    seq(|parts|, i requires 0 <= i < |parts| => assert parts[i] in parts; SectorSpan(parts[i]).value)
  }
}
