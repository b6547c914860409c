/** The editable set of a disk's partitions. */
module PartitionEditor {
  import opened BlockDevice
  import opened Bytes
  import opened Editing
  import opened FirstFit
  import opened GptCommit
  import opened GptEntries
  import opened GptGeometry
  import opened GptHeader
  import opened GptTable
  import opened GptWriter
  import opened MbrRoundTrip
  import opened MbrTable
  import opened MbrWriter
  import opened PartitionTable
  import opened Placement
  import opened Probing
  import opened Sizes
  import opened Slots
  import opened Spans
  import opened Wrappers

  // ----- types of partition

  const EFI_SYSTEM: Guid := [0x28, 0x73, 0x2A, 0xC1, 0x1F, 0xF8, 0xD2, 0x11, 0xBA, 0x4B, 0x00, 0xA0, 0xC9, 0x3E, 0xC9,
                             0x3B]
  const MICROSOFT_BASIC_DATA: Guid := [0xA2, 0xA0, 0xD0, 0xEB, 0xE5, 0xB9, 0x33, 0x44, 0x87, 0xC0, 0x68, 0xB6, 0xB7,
                                       0x26, 0x99, 0xC7]
  const LINUX_FILESYSTEM: Guid := [0xAF, 0x3D, 0xC6, 0x0F, 0x83, 0x84, 0x72, 0x47, 0x8E, 0x79, 0x3D, 0x69, 0xD8, 0x47,
                                   0x7D, 0xE4]
  const LINUX_SWAP: Guid := [0x6D, 0xFD, 0x57, 0x06, 0xAB, 0xA4, 0xC4, 0x43, 0x84, 0xE5, 0x09, 0x33, 0xC8, 0x4B, 0x4F,
                             0x4F]
  const APPLE_HFS_PLUS: Guid := [0x00, 0x53, 0x46, 0x48, 0x00, 0x00, 0xAA, 0x11, 0xAA, 0x11, 0x00, 0x30, 0x65, 0x43,
                                 0xEC, 0xAC]
  const APPLE_APFS: Guid := [0xEF, 0x57, 0x34, 0x7C, 0x00, 0x00, 0xAA, 0x11, 0xAA, 0x11, 0x00, 0x30, 0x65, 0x43, 0xEC,
                             0xAC]

  datatype TypeId =
    | EfiSystem | MicrosoftBasicData | LinuxFilesystem | LinuxSwap | AppleHfsPlus | AppleApfs
    | GptCustom(guid: Guid) | MbrCustom(typeByte: byte)

  function GptType(id: TypeId): Option<Guid> {
    match id
    case EfiSystem => Some(EFI_SYSTEM)
    case MicrosoftBasicData => Some(MICROSOFT_BASIC_DATA)
    case LinuxFilesystem => Some(LINUX_FILESYSTEM)
    case LinuxSwap => Some(LINUX_SWAP)
    case AppleHfsPlus => Some(APPLE_HFS_PLUS)
    case AppleApfs => Some(APPLE_APFS)
    case GptCustom(g) => Some(g)
    case MbrCustom(_) => None
  }

  function MbrType(id: TypeId): Option<byte> {
    match id
    case EfiSystem => Some(0xEF)
    case MicrosoftBasicData => Some(0x07)
    case LinuxFilesystem => Some(0x83)
    case LinuxSwap => Some(0x82)
    case AppleHfsPlus => Some(0xAF)
    case AppleApfs => None
    case GptCustom(_) => None
    case MbrCustom(b) => Some(b)
  }

  /** How a table of this kind records the type, if it can. */
  function KindOf(id: TypeId, kind: TableKind): (r: Option<Kind>)
    ensures r.Some? ==> if kind == Gpt then r.value.GptKind? else r.value.MbrKind?
  {
    if kind == Gpt then (if GptType(id).Some? then Some(GptKind(GptType(id).value, 0)) else None)
    else if MbrType(id).Some? then Some(MbrKind(MbrType(id).value, false)) else None
  }

  /** The five groups of a GUID as it is written out; the first three are stored low byte first. */
  predicate Reads(g: Guid, a: int, b: int, c: int, d: int, e: int) {
    && a == Num4(g, 0) && b == Num2(g, 4) && c == Num2(g, 6)
    && d == High2(g, 8) && e == 0x1_0000_0000 * High2(g, 10) + 0x1_0000 * High2(g, 12) + High2(g, 14)
  }

  /** The number at an offset in two bytes, high byte first. */
  function High2(s: seq<byte>, at: nat): int
    requires at + 2 <= |s|
  {
    var high: int, low: int := s[at], s[at + 1];
    0x100 * high + low
  }

  /** A type is recorded on a GPT with the GUID that reads so, and no attribute. */
  predicate RecordedAs(id: TypeId, a: int, b: int, c: int, d: int, e: int) {
    match KindOf(id, Gpt)
    case Some(GptKind(guid, attributes)) => Reads(guid, a, b, c, d, e) && attributes == 0
    case _ => false
  }

  /** The types there are names for, by their GUIDs. */
  lemma {:induction false} GuidsRecorded()
    ensures RecordedAs(EfiSystem, 0xC12A7328, 0xF81F, 0x11D2, 0xBA4B, 0x00A0C93EC93B)
    ensures RecordedAs(MicrosoftBasicData, 0xEBD0A0A2, 0xB9E5, 0x4433, 0x87C0, 0x68B6B72699C7)
  {
  }

  lemma {:induction false} LinuxGuidsRecorded()
    ensures RecordedAs(LinuxFilesystem, 0x0FC63DAF, 0x8483, 0x4772, 0x8E79, 0x3D69D8477DE4)
    ensures RecordedAs(LinuxSwap, 0x0657FD6D, 0xA4AB, 0x43C4, 0x84E5, 0x0933C84B4F4F)
  {
  }

  lemma {:induction false} AppleGuidsRecorded()
    ensures RecordedAs(AppleHfsPlus, 0x48465300, 0x0000, 0x11AA, 0xAA11, 0x00306543ECAC)
    ensures RecordedAs(AppleApfs, 0x7C3457EF, 0x0000, 0x11AA, 0xAA11, 0x00306543ECAC)
  {
  }

  /** And by their MBR type bytes, not active; APFS has none. */
  lemma {:induction false} BytesRecorded()
    ensures KindOf(EfiSystem, Mbr) == Some(MbrKind(0xEF, false))
    ensures KindOf(MicrosoftBasicData, Mbr) == Some(MbrKind(0x07, false))
    ensures KindOf(LinuxFilesystem, Mbr) == Some(MbrKind(0x83, false))
    ensures KindOf(LinuxSwap, Mbr) == Some(MbrKind(0x82, false))
    ensures KindOf(AppleHfsPlus, Mbr) == Some(MbrKind(0xAF, false)) && KindOf(AppleApfs, Mbr) == None
  {
  }

  /** A type given as its GUID or byte is recorded as it is, on a table of its own kind only. */
  lemma {:induction false} CustomRecorded(guid: Guid, typeByte: byte)
    ensures KindOf(GptCustom(guid), Gpt) == Some(GptKind(guid, 0)) && KindOf(GptCustom(guid), Mbr) == None
    ensures KindOf(MbrCustom(typeByte), Mbr) == Some(MbrKind(typeByte, false))
    ensures KindOf(MbrCustom(typeByte), Gpt) == None
  {
  }

  datatype Ref = ByIndex(index: nat) | ByUuid(uuid: Guid)

  /** The partition a reference names. */
  ghost predicate Names(parts: seq<Partition>, target: Ref, i: nat) {
    && i < |parts|
    && match target
       case ByIndex(k) => i == k
       case ByUuid(u) => parts[i].uuid == Some(u) && forall k :: 0 <= k < i ==> parts[k].uuid != Some(u)
  }

  /** A byte length in sectors, rounded up to the alignment. */
  function RoundedSectors(length: u64): (r: int)
    ensures length > 0 ==> r >= ALIGNMENT && r * SECTOR >= length > (r - ALIGNMENT) * SECTOR
    ensures r % ALIGNMENT == 0
  {
    AlignUp((length + SECTOR - 1) / SECTOR)
  }

  /** The partition `Add` makes. */
  function NewPartition(t: Target, start: int, sectors: int, kind: Kind, name: Option<string>, uuid: Guid): Partition
    requires 0 <= start * SECTOR < U64 && 0 <= sectors * SECTOR < U64
  {
    Partition(start * SECTOR, sectors * SECTOR, kind, name, if t.kind == Gpt then Some(uuid) else None, None,
              NO_ISSUES, sectors * SECTOR)
  }

  /** A place that fits makes a well-placed partition clear of the others. */
  lemma {:induction false} PlacedWell(parts: seq<Partition>, skip: Option<nat>, t: Target, start: int, sectors: int,
                                      p: Partition)
    requires SpansKnown(parts, skip) && FitsAmong(parts, skip, t, start, sectors) && sectors > 0
    requires sectors % ALIGNMENT == 0
    requires p.start == start * SECTOR && p.length == sectors * SECTOR
    ensures WellPlaced(p, t.Usable()) && SectorSpan(p) == Some(Span(start, start + sectors - 1))
  {
    UsableBounds(t);
    assert p.start + p.length <= (t.Usable().last + 1) * SECTOR;
    ToMebibytes(start);
    ToMebibytes(sectors);
    AlignedSpan(p);
  }

  lemma {:induction false} ToMebibytes(n: int)
    requires n % ALIGNMENT == 0
    ensures (n * SECTOR) % MEBIBYTE == 0 && n * SECTOR / SECTOR == n && (n * SECTOR) % SECTOR == 0
  {
    assert n == n / ALIGNMENT * ALIGNMENT;
    assert n * SECTOR == (n / ALIGNMENT) * MEBIBYTE;
  }

  // ----- adding

  /** Whether a partition can be added. */
  ghost predicate CanAdd(parts: seq<Partition>, t: Target, hint: Option<u64>, length: u64, id: TypeId) {
    && length > 0
    && |parts| + |t.Reserved()| < t.SlotCount()
    && KindOf(id, t.kind).Some?
    && SpansKnown(parts, None)
    && (match hint
        case None => exists c: int :: FitsAmong(parts, None, t, c, RoundedSectors(length))
        case Some(h) => HintFits(parts, t, h, RoundedSectors(length)))
  }

  /** The place a hint asks for, or the least that fits without one. */
  ghost predicate Chosen(parts: seq<Partition>, t: Target, hint: Option<u64>, sectors: int, start: int)
    requires SpansKnown(parts, None)
  {
    && FitsAmong(parts, None, t, start, sectors)
    && match hint
       case Some(h) => LeastStart(h, t.Usable(), start)
       case None => forall c: int :: FitsAmong(parts, None, t, c, sectors) ==> start <= c
  }

  /** The partition added: whole mebibytes at the chosen place, of the type asked for. */
  ghost predicate Added(parts: seq<Partition>, t: Target, hint: Option<u64>, length: u64, id: TypeId,
                        name: Option<string>, uuid: Guid,
                        p: Partition)
  {
    && length > 0 && |parts| + |t.Reserved()| < t.SlotCount() && KindOf(id, t.kind).Some? && SpansKnown(parts, None)
    && p.start % SECTOR == 0 && Chosen(parts, t, hint, RoundedSectors(length), p.start / SECTOR)
    && 0 <= RoundedSectors(length) * SECTOR < U64
    && Mebibytes(length, p.length) && p.length == RoundedSectors(length) * SECTOR && p.available == p.length
    && p.kind == KindOf(id, t.kind).value && p.name == name && p.uuid == (if t.kind == Gpt then Some(uuid) else None)
    && p.slot == None && p.issues == NO_ISSUES
  }

  /** The least whole mebibytes of so many bytes. */
  predicate Mebibytes(length: u64, rounded: u64) {
    rounded % 1048576 == 0 && rounded >= length > rounded - 1048576
  }

  method PlanAdd(parts: seq<Partition>, t: Target, hint: Option<u64>, length: u64, id: TypeId, name: Option<string>,
                 uuid: Guid)
    returns (r: Result<Partition>)
    ensures r.Ok? <==> CanAdd(parts, t, hint, length, id)
    ensures r.Ok? ==> Added(parts, t, hint, length, id, name, uuid, r.value)
  {
    if length == 0 { return Err(Invalid); }
    if |parts| + |t.Reserved()| >= t.SlotCount() { return Err(Invalid); }
    var sectors := RoundedSectors(length);
    if t.Usable().first > t.Usable().last { return Err(DeviceTooSmall); }
    var placed := PlaceNew(parts, t, hint, sectors);
    if placed.Err? { return Err(placed.error); }
    var kind := KindOf(id, t.kind);
    if kind.None? { return Err(Invalid); }
    PlaceInBytes(t, placed.value, sectors);
    ToMebibytes(placed.value);
    ToMebibytes(sectors);
    r := Ok(NewPartition(t, placed.value, sectors, kind.value, name, uuid));
  }

  /** Adding keeps the set sound and its issues exact. */
  lemma {:induction false} AddedKeeps(parts: seq<Partition>, t: Target, hint: Option<u64>, length: u64, id: TypeId,
                                      name: Option<string>, uuid: Guid, p: Partition)
    requires Added(parts, t, hint, length, id, name, uuid, p)
    ensures Sound(parts, t) ==> Sound(parts + [p], t)
    ensures t.kind == Gpt && Exact(parts, t) ==> Exact(parts + [p], t)
  {
    PlacedWell(parts, None, t, p.start / SECTOR, RoundedSectors(length), p);
    if Sound(parts, t) { AddSound(parts, t, p); }
    if t.kind == Gpt && Exact(parts, t) { AddExact(parts, t, p); }
  }

  /** The check that a partition fits 32-bit sector numbers never refuses one that has a place. */
  lemma {:induction false} MbrPlaceFits(parts: seq<Partition>, skip: Option<nat>, t: Target, start: int, sectors: int)
    requires t.kind == Mbr && sectors > 0 && SpansKnown(parts, skip) && FitsAmong(parts, skip, t, start, sectors)
    ensures start <= MBR_LBA_MAX && sectors <= MBR_LBA_MAX
  {
  }

  // ----- removing and resizing

  method Resolve(parts: seq<Partition>, target: Ref) returns (r: Result<nat>)
    ensures r.Ok? ==> Names(parts, target, r.value)
    ensures r.Err? ==> forall i: nat :: !Names(parts, target, i)
  {
    match target
    case ByIndex(k) => r := if k < |parts| then Ok(k) else Err(Invalid);
    case ByUuid(u) =>
      var i: nat := 0;
      while i < |parts|
        invariant i <= |parts| && forall k :: 0 <= k < i ==> parts[k].uuid != Some(u)
      {
        if parts[i].uuid == Some(u) { return Ok(i); }
        i := i + 1;
      }
      r := Err(Invalid);
  }

  lemma {:induction false} NamesOne(parts: seq<Partition>, target: Ref, i: nat)
    requires Names(parts, target, i)
    ensures forall k: nat :: Names(parts, target, k) ==> k == i
  {
  }

  /** The spans that can be named, and the partitions they belong to. */
  ghost predicate Known(parts: seq<Partition>, n: nat, who: seq<nat>, spans: seq<Span>) {
    && |who| == |spans|
    && (forall k :: 0 <= k < |who| ==> who[k] < n <= |parts| && SectorSpan(parts[who[k]]) == Some(spans[k]))
    && (forall j, k :: 0 <= j < k < |who| ==> who[j] < who[k])
    && (forall i: nat :: i < n <= |parts| && SectorSpan(parts[i]).Some? ==> i in who)
  }

  method KnownSpans(parts: seq<Partition>) returns (who: seq<nat>, spans: seq<Span>)
    ensures Known(parts, |parts|, who, spans) && AllForward(spans)
  {
    who, spans := [], [];
    var i: nat := 0;
    while i < |parts|
      invariant i <= |parts| && Known(parts, i, who, spans) && AllForward(spans)
    {
      var span := SectorSpan(parts[i]);
      if span.Some? {
        who, spans := who + [i], spans + [span.value];
      }
      i := i + 1;
    }
  }

  /** A named span overlaps another named one exactly when its partition overlaps another. */
  lemma {:induction false} KnownOverlap(parts: seq<Partition>, who: seq<nat>, spans: seq<Span>, k: nat)
    requires Known(parts, |parts|, who, spans) && k < |who|
    ensures OverlapsAnother(spans, k) <==> OverlapsOther(parts, who[k])
  {
    if OverlapsAnother(spans, k) {
      var j :| 0 <= j < |spans| && j != k && Overlap(spans[k], spans[j]);
      assert who[j] != who[k] && SectorSpan(parts[who[j]]) == Some(spans[j]);
    }
    if OverlapsOther(parts, who[k]) {
      var i: nat :|
        && i < |parts| && i != who[k] && SectorSpan(parts[i]).Some?
        && Overlap(SectorSpan(parts[who[k]]).value, SectorSpan(parts[i]).value);
      assert i in who;
      var j :| 0 <= j < |who| && who[j] == i;
      assert Overlap(spans[k], spans[j]);
    }
  }

  /** Set each partition's overlap flag from the list as it stands. */
  method Refresh(parts: seq<Partition>) returns (marked: seq<Partition>)
    ensures marked == Refreshed(parts)
  {
    var who, spans := KnownSpans(parts);
    var flags := MarkOverlaps(spans);
    marked := parts;
    var k: nat := 0;
    while k < |who|
      invariant k <= |who| && |marked| == |parts|
      invariant forall j :: 0 <= j < k ==> marked[who[j]] == RefreshedAt(parts, who[j])
      invariant forall i: nat :: i < |parts| && i !in who[..k] ==> marked[i] == parts[i]
    {
      KnownOverlap(parts, who, spans, k);
      marked := marked[who[k] := parts[who[k]].(issues := parts[who[k]].issues.(overlaps := flags[k]))];
      assert who[..k + 1] == who[..k] + [who[k]];
      k := k + 1;
    }
    assert who[..k] == who;
    AllRefreshed(parts, who, spans, marked);
  }

  lemma {:induction false} AllRefreshed(parts: seq<Partition>, who: seq<nat>, spans: seq<Span>, done: seq<Partition>)
    requires Known(parts, |parts|, who, spans) && |done| == |parts|
    requires forall j :: 0 <= j < |who| ==> done[who[j]] == RefreshedAt(parts, who[j])
    requires forall i: nat :: i < |parts| && i !in who ==> done[i] == parts[i]
    ensures done == Refreshed(parts)
  {
    forall i: nat | i < |parts| ensures done[i] == RefreshedAt(parts, i) {
      if i in who {
        var j :| 0 <= j < |who| && who[j] == i;
      }
    }
  }

  /** The list after a removal: overlap flags are a GPT's, and are set again. */
  function Settled(parts: seq<Partition>, t: Target): seq<Partition> {
    if t.kind == Gpt then Refreshed(parts) else parts
  }

  method Settle(parts: seq<Partition>, t: Target) returns (done: seq<Partition>)
    ensures done == Settled(parts, t)
  {
    if t.kind == Gpt { done := Refresh(parts); } else { done := parts; }
  }

  lemma {:induction false} RemovedKeeps(parts: seq<Partition>, t: Target, i: nat)
    requires i < |parts|
    ensures Sound(parts, t) ==> Sound(Settled(Without(parts, i), t), t)
    ensures t.kind == Gpt && Exact(parts, t) ==> Exact(Settled(Without(parts, i), t), t)
  {
    var rest := Without(parts, i);
    if Sound(parts, t) {
      RemoveSound(parts, t, i);
      RefreshedSound(rest, t);
    }
    if t.kind == Gpt && Exact(parts, t) {
      RefreshedExact(rest, t);
    }
  }

  /** Whether partition `i` can take this length where it is. */
  ghost predicate CanResize(parts: seq<Partition>, t: Target, i: nat, length: u64)
    requires i < |parts|
  {
    var start, sectors := parts[i].start / SECTOR, RoundedSectors(length);
    && length > 0 && SpansKnown(parts, Some(i))
    && start + sectors - 1 <= t.Usable().last
    && (t.kind == Mbr ==> sectors <= MBR_LBA_MAX)
    && (forall j: nat :: j < |parts| && Some(i) != Some(j) ==>
          !Overlap(SectorSpan(parts[j]).value, Span(start, start + sectors - 1)))
    && (forall k :: 0 <= k < |ClaimsOf(t.Reserved())| ==>
          !Overlap(ClaimsOf(t.Reserved())[k], Span(start, start + sectors - 1)))
  }

  /** Room for a whole mebibyte means the usable range is not an inverted one. */
  lemma {:induction false} RoomIsReal(t: Target, start: int, sectors: int)
    requires 0 <= start && sectors >= ALIGNMENT && start + sectors - 1 <= t.Usable().last
    ensures t.Usable().first <= t.Usable().last && sectors * SECTOR < U64 && (start + sectors) * SECTOR < U64
  {
    UsableBounds(t);
    if t.kind == Gpt && t.geometry.UsableRange(t.size / SECTOR).Ok? {
      ByteRegions(t.geometry, t.size);
    }
  }

  /** The partition with its new length; it no longer runs past the usable range. */
  function Resized(p: Partition, length: u64): Partition
    requires RoundedSectors(length) * SECTOR < U64 && RoundedSectors(length) >= 0
  {
    p.(length := RoundedSectors(length) * SECTOR, issues := p.issues.(pastLast := false))
  }

  method PlanResize(parts: seq<Partition>, t: Target, i: nat, length: u64) returns (r: Result<Partition>)
    requires i < |parts|
    ensures r.Ok? <==> CanResize(parts, t, i, length)
    ensures r.Ok? ==> RoundedSectors(length) >= 0 && RoundedSectors(length) * SECTOR < U64
    ensures r.Ok? ==> r.value == Resized(parts[i], length)
  {
    if length == 0 { return Err(Invalid); }
    var start, sectors := parts[i].start / SECTOR, RoundedSectors(length);
    if start + sectors - 1 > t.Usable().last { return Err(Invalid); }
    if t.kind == Mbr && sectors > MBR_LBA_MAX { return Err(Invalid); }
    var occupied := OccupiedSpans(parts, Some(i), t);
    if occupied.None? { return Err(Invalid); }
    ClearIsAmong(occupied.value, parts, Some(i), ClaimsOf(t.Reserved()), Span(start, start + sectors - 1));
    var clear := AllClear(occupied.value, Span(start, start + sectors - 1));
    if !clear { return Err(Invalid); }
    RoomIsReal(t, start, sectors);
    r := Ok(Resized(parts[i], length));
  }

  lemma {:induction false} ResizedSpan(parts: seq<Partition>, t: Target, i: nat, length: u64, p: Partition)
    requires i < |parts| && CanResize(parts, t, i, length) && parts[i].start % SECTOR == 0
    requires RoundedSectors(length) * SECTOR < U64 && p == Resized(parts[i], length)
    ensures SectorSpan(p) == Some(Span(p.start / SECTOR, p.start / SECTOR + RoundedSectors(length) - 1))
    ensures SectorSpan(p).value.last <= t.Usable().last && p.length > 0 && p.length % MEBIBYTE == 0
    ensures t.Usable().first <= t.Usable().last
  {
    RoomIsReal(t, p.start / SECTOR, RoundedSectors(length));
    ToMebibytes(RoundedSectors(length));
    AlignedSpan(p);
  }

  lemma {:induction false} ResizedSound(parts: seq<Partition>, t: Target, i: nat, length: u64, p: Partition)
    requires i < |parts| && CanResize(parts, t, i, length) && Sound(parts, t)
    requires RoundedSectors(length) * SECTOR < U64 && p == Resized(parts[i], length)
    ensures Sound(parts[i := p], t)
  {
    WellPlacedSectors(parts[i], t.Usable());
    ResizedSpan(parts, t, i, length, p);
    ResizeSound(parts, t, i, p);
  }

  lemma {:induction false} ResizedRange(parts: seq<Partition>, t: Target, i: nat, length: u64, p: Partition)
    requires i < |parts| && CanResize(parts, t, i, length) && RangeExact(parts[i], t) && t.kind == Gpt
    requires RoundedSectors(length) * SECTOR < U64 && p == Resized(parts[i], length)
    ensures RangeExact(p, t)
  {
    ResizedSpan(parts, t, i, length, p);
    UsableIsStated(t);
  }

  lemma {:induction false} ResizedKeeps(parts: seq<Partition>, t: Target, i: nat, length: u64, p: Partition)
    requires i < |parts| && CanResize(parts, t, i, length)
    requires RoundedSectors(length) * SECTOR < U64 && p == Resized(parts[i], length)
    ensures Sound(parts, t) ==> Sound(Settled(parts[i := p], t), t)
    ensures t.kind == Gpt && Exact(parts, t) ==> Exact(Settled(parts[i := p], t), t)
  {
    if Sound(parts, t) {
      ResizedSound(parts, t, i, length, p);
      RefreshedSound(parts[i := p], t);
    }
    if t.kind == Gpt && Exact(parts, t) {
      assert RangeExact(parts[i], t);
      ResizedRange(parts, t, i, length, p);
      RefreshedExact(parts[i := p], t);
    }
  }

  lemma {:induction false} ResizedLength(parts: seq<Partition>, t: Target, i: nat, length: u64)
    requires i < |parts| && length > 0 && 0 <= RoundedSectors(length) * SECTOR < U64
    ensures var done := Settled(parts[i := Resized(parts[i], length)], t);
      i < |done| && Mebibytes(length, done[i].length)
  {
    ToMebibytes(RoundedSectors(length));
  }

  // ----- committing

  /** A set the writers never refuse: sound, not empty, for a disk of this size, with no GPT type
      that means unused. What was found on a probed disk must be writable too: LBA 0 of a GPT
      disk, and the ranges reserved entries of an MBR claim. */
  ghost predicate Writable(parts: seq<Partition>, t: Target, disk: seq<byte>) {
    && Sound(parts, t) && parts != [] && |disk| == t.size
    && (t.kind == Gpt ==>
          && (forall i :: 0 <= i < |parts| ==> parts[i].kind.GptKind? && parts[i].kind.typeGuid != UNUSED)
          && (t.reserved == [] || Lba0For(disk, t.reserved, parts).Ok?))
    && (t.kind == Mbr ==> PairwiseDisjoint(ClaimsOf(t.reserved)))
  }

  /** What a commit leaves on the disk. */
  ghost predicate Committed(before: seq<byte>, after: seq<byte>, parts: seq<Partition>, t: Target, guid: Guid,
                            tails: Tails,
                            slots: seq<nat>, crc: Crc)
  {
    match t.kind
    case Gpt => WrittenTo(before, after, Plan(parts, slots, t.geometry, guid, tails),
                          Lba0For(before, t.reserved, parts), crc)
    case Mbr => MbrWritten(before, after, parts, slots, t.reserved)
  }

  /** A set made from nothing has no entries of LBA 0 to keep, so there is nothing to refuse. */
  lemma {:induction false} BareLba0(disk: seq<byte>, parts: seq<Partition>)
    requires |disk| >= SECTOR
    ensures Lba0For(disk, [], parts).Ok?
  {
  }

  /** What a GPT commit wrote is what a probe finds: the partitions in slot order, both copies
      agreeing. */
  lemma {:induction false} CommittedProbes(before: Disk, after: seq<byte>, parts: seq<Partition>, t: Target,
                                           guid: Guid, tails: Tails, slots: seq<nat>, crc: Crc)
    requires t.kind == Gpt && Committed(before, after, parts, t, guid, tails, slots, crc)
    ensures |after| == |before|
    ensures var plan := Plan(parts, slots, t.geometry, guid, tails);
      Probe(after, true, crc) == Ok(Probed(Gpt, Expected(plan, |before|), Primary))
  {
    ProbeWritten(before, Plan(parts, slots, t.geometry, guid, tails), Lba0For(before, t.reserved, parts).value, crc);
  }

  method WriteTable(dev: Device, parts: seq<Partition>, t: Target, guid: Guid, tails: Tails, crc: Crc)
    returns (r: Result<seq<nat>>)
    requires dev.Valid()
    modifies dev
    ensures dev.Valid() && |dev.bytes| == |old(dev.bytes)|
    ensures r.Err? ==> dev.bytes == old(dev.bytes)
    ensures r.Ok? ==> Assigned(SlotsOf(parts), t.SlotCount(), ReservedSlots(t.Reserved()), r.value)
    ensures r.Ok? ==> Committed(old(dev.bytes), dev.bytes, parts, t, guid, tails, r.value, crc)
    ensures dev.writable && Writable(parts, t, old(dev.bytes)) ==> r.Ok?
  {
    ghost var good := Writable(parts, t, dev.bytes);
    if t.kind == Gpt {
      assert ReservedSlots(t.Reserved()) == [];
      if good {
        SoundGptAccepted(parts, t);
        ByteRegions(t.geometry, t.size);
        if t.reserved == [] { BareLba0(dev.bytes, parts); }
      }
      r := WriteGpt(dev, parts, guid, t.geometry, tails, t.reserved, crc);
    } else {
      if good { SoundMbrAccepted(parts, t); }
      r := WriteMbr(dev, parts, t.reserved);
    }
  }

  lemma {:induction false} CommittedKeeps(parts: seq<Partition>, t: Target, slots: seq<nat>)
    requires Assigned(SlotsOf(parts), t.SlotCount(), ReservedSlots(t.Reserved()), slots)
    ensures forall i :: 0 <= i < |slots| ==> slots[i] < 0x1_0000_0000
    ensures Sound(parts, t) ==> Sound(WithSlots(parts, slots), t)
    ensures Exact(parts, t) ==> Exact(WithSlots(parts, slots), t)
  {
    if Sound(parts, t) { CommitSound(parts, t, slots); }
    if Exact(parts, t) { CommitExact(parts, t, slots); }
  }

  // ----- which partition is which

  /** The same partition later on: its place, name and identity, and its slot once it has one. */
  predicate Survives(before: Partition, after: Partition) {
    && after.start == before.start && after.uuid == before.uuid
    && after.kind == before.kind && after.name == before.name
    && (before.slot.Some? ==> after.slot == before.slot)
  }

  const ADDED: int := -1

  /** Partition `i` of the later list is partition `from[i]` of the earlier one, or was added since;
      none stands for two, those that are left stay in order, and each of them survives. */
  ghost predicate Traces(before: seq<Partition>, after: seq<Partition>, from: seq<int>) {
    && |from| == |after|
    && (forall i :: 0 <= i < |from| ==>
          from[i] == ADDED || (0 <= from[i] < |before| && Survives(before[from[i]], after[i])))
    && (forall i, k :: 0 <= i < k < |from| && from[i] != ADDED && from[k] != ADDED ==> from[i] < from[k])
  }

  lemma {:induction false} TracesSelf(parts: seq<Partition>)
    ensures Traces(parts, parts, seq(|parts|, i => i))
  {
  }

  lemma {:induction false} TracesAdd(before: seq<Partition>, parts: seq<Partition>, from: seq<int>, p: Partition)
    requires Traces(before, parts, from)
    ensures Traces(before, parts + [p], from + [ADDED])
  {
  }

  lemma {:induction false} TracesRemove(before: seq<Partition>, parts: seq<Partition>, from: seq<int>, i: nat)
    requires Traces(before, parts, from) && i < |parts|
    ensures Traces(before, Without(parts, i), Without(from, i))
  {
  }

  /** Changes that leave every partition itself. */
  lemma {:induction false} TracesSame(before: seq<Partition>, parts: seq<Partition>, from: seq<int>,
                                      after: seq<Partition>)
    requires Traces(before, parts, from) && |after| == |parts|
    requires forall i :: 0 <= i < |parts| ==> Survives(parts[i], after[i])
    ensures Traces(before, after, from)
  {
  }

  lemma {:induction false} TracesRemoved(before: seq<Partition>, parts: seq<Partition>, from: seq<int>, i: nat,
                                         t: Target)
    requires Traces(before, parts, from) && i < |parts|
    ensures Traces(before, Settled(Without(parts, i), t), Without(from, i))
  {
    TracesRemove(before, parts, from, i);
    TracesSame(before, Without(parts, i), Without(from, i), Settled(Without(parts, i), t));
  }

  lemma {:induction false} TracesResized(before: seq<Partition>, parts: seq<Partition>, from: seq<int>, i: nat,
                                         t: Target, length: u64)
    requires Traces(before, parts, from) && i < |parts|
    requires RoundedSectors(length) >= 0 && RoundedSectors(length) * SECTOR < U64
    ensures Traces(before, Settled(parts[i := Resized(parts[i], length)], t), from)
  {
    TracesSame(before, parts, from, Settled(parts[i := Resized(parts[i], length)], t));
  }

  lemma {:induction false} TracesCommitted(before: seq<Partition>, parts: seq<Partition>, from: seq<int>,
                                           count: nat, reserved: seq<nat>, slots: seq<nat>)
    requires Traces(before, parts, from) && Assigned(SlotsOf(parts), count, reserved, slots)
    requires forall i :: 0 <= i < |slots| ==> slots[i] < 0x1_0000_0000
    ensures Traces(before, WithSlots(parts, slots), from)
  {
    TracesSame(before, parts, from, WithSlots(parts, slots));
  }

  /** Once a commit has recorded the slots, whatever edits follow, the next commit writes each of
      the partitions that are left to the slot it had. */
  lemma {:induction false} SurvivorsStay(parts: seq<Partition>, slots: seq<nat>, later: seq<Partition>, from: seq<int>,
                                         count: nat, reserved: seq<nat>, again: seq<nat>)
    requires |slots| == |parts| && (forall k :: 0 <= k < |slots| ==> slots[k] < 0x1_0000_0000)
    requires Traces(WithSlots(parts, slots), later, from)
    requires Assigned(SlotsOf(later), count, reserved, again)
    ensures forall i :: 0 <= i < |later| && from[i] != ADDED ==> again[i] == slots[from[i]]
  {
    forall i | 0 <= i < |later| && from[i] != ADDED ensures again[i] == slots[from[i]] {
      assert later[i].slot == Some(slots[from[i]]);
      assert SlotsOf(later)[i] == Some(slots[from[i]]);
    }
  }

  // ----- a set read from a disk

  lemma {:induction false} ListedRange(entries: EntryList, size: u64, i: nat)
    requires NoneBad(entries) && i < |Listed(entries, size)|
    ensures i < |ListedSpans(entries)|
    ensures var p, s := Listed(entries, size)[i], ListedSpans(entries)[i];
      p.start == s.first * SECTOR && p.length == (s.last - s.first + 1) * SECTOR && s.Forward() && p.issues == NO_ISSUES
  {
    ListedTogether(entries, size);
    var k := |entries| - 1;
    ListedTogether(entries[..k], size);
    if i < |Listed(entries[..k], size)| { ListedRange(entries[..k], size, i); }
  }

  lemma {:induction false} SpanOfRange(p: Partition, s: Span)
    requires p.start == s.first * SECTOR && p.length == (s.last - s.first + 1) * SECTOR && s.Forward()
    requires SectorSpan(p).Some?
    ensures SectorSpan(p) == Some(s) && p.start % SECTOR == 0
  {
    AlignedSpan(p);
  }

  /** What a GPT reports when it is read is exact, if every partition's end fits 64 bits. */
  lemma {:induction false} ProbedExact(entries: EntryList, usable: Span, size: u64, parts: seq<Partition>, t: Target)
    requires EntriesRead(entries, usable, size) == Ok(parts)
    requires forall i :: 0 <= i < |parts| ==> SectorSpan(parts[i]).Some?
    requires t.kind == Gpt && t.geometry.declared == Some(usable)
    ensures Exact(parts, t)
  {
    ListedTogether(entries, size);
    var spans := ListedSpans(entries);
    forall i: nat | i < |parts| ensures SectorSpan(parts[i]) == Some(spans[i]) && parts[i].start % SECTOR == 0 {
      ListedRange(entries, size, i);
      SpanOfRange(parts[i], spans[i]);
    }
    forall i: nat | i < |parts|
      ensures RangeExact(parts[i], t) && parts[i].issues.overlaps == OverlapsOther(parts, i)
    {
      SameOverlap(parts, spans, i);
    }
  }

  lemma {:induction false} SameOverlap(parts: seq<Partition>, spans: seq<Span>, i: nat)
    requires |parts| == |spans| && i < |parts|
    requires forall j :: 0 <= j < |parts| ==> SectorSpan(parts[j]) == Some(spans[j])
    ensures OverlapsAnother(spans, i) <==> OverlapsOther(parts, i)
  {
  }

  datatype Edit =
    | AddEdit(hint: Option<u64>, length: u64, id: TypeId, name: Option<string>, uuid: Guid)
    | RemoveEdit(which: Ref)
    | ResizeEdit(which: Ref, length: u64)
    | CommitEdit

  /** What one edit may do to the trace: only an addition appends, only a removal takes one away. */
  ghost predicate Moves(edit: Edit, from: seq<int>, from': seq<int>) {
    || from' == from
    || (edit.AddEdit? && from' == from + [ADDED])
    || (edit.RemoveEdit? && exists i: nat :: i < |from| && from' == Without(from, i))
  }

  /** The partitions there were at the start are all still there, and first. */
  ghost predicate AllThere(n: nat, from: seq<int>) {
    n <= |from| && forall j :: 0 <= j < n ==> from[j] == j
  }

  class PartitionSet {
    const target: Target
    const diskGuid: Guid
    const tails: Tails
    var parts: seq<Partition>

    /** A set for a table found on a disk, or a new one. */
    constructor (t: Target, guid: Guid, found: seq<Partition>, entryTails: Tails)
      ensures target == t && diskGuid == guid && parts == found && tails == entryTails
    {
      target, diskGuid, parts, tails := t, guid, found, entryTails;
    }

    constructor EmptyGpt(size: u64, guid: Guid)
      ensures target == Target(Gpt, size, CANONICAL, []) && parts == [] && diskGuid == guid && tails == map[]
      ensures Sound(parts, target) && Exact(parts, target)
    {
      target, diskGuid, parts, tails := Target(Gpt, size, CANONICAL, []), guid, [], map[];
      EmptySound(Target(Gpt, size, CANONICAL, []));
    }

    constructor EmptyMbr(size: u64)
      ensures target == Target(Mbr, size, CANONICAL, []) && parts == [] && tails == map[]
      ensures Sound(parts, target)
    {
      target, diskGuid, parts, tails := Target(Mbr, size, CANONICAL, []), UNUSED, [], map[];
      EmptySound(Target(Mbr, size, CANONICAL, []));
    }

    /** Add a partition, at the hint if there is one and otherwise at the first place that fits.
        `uuid` is the random one it gets on a GPT. */
    method Add(hint: Option<u64>, length: u64, id: TypeId, name: Option<string>, uuid: Guid) returns (r: Result<nat>)
      modifies this`parts
      ensures r.Ok? <==> CanAdd(old(parts), target, hint, length, id)
      ensures r.Err? ==> parts == old(parts)
      ensures r.Ok? ==> r.value == |old(parts)| && |parts| == |old(parts)| + 1 && parts[..r.value] == old(parts)
      ensures r.Ok? ==> Added(old(parts), target, hint, length, id, name, uuid, parts[r.value])
      ensures Sound(old(parts), target) ==> Sound(parts, target)
      ensures target.kind == Gpt && Exact(old(parts), target) ==> Exact(parts, target)
    {
      var made := PlanAdd(parts, target, hint, length, id, name, uuid);
      if made.Err? { return Err(made.error); }
      AddedKeeps(parts, target, hint, length, id, name, uuid, made.value);
      r := Ok(|parts|);
      parts := parts + [made.value];
    }

    /** Remove the partition a reference names. */
    method Remove(which: Ref) returns (r: Result<nat>)
      modifies this`parts
      ensures r.Err? ==> parts == old(parts) && forall i: nat :: !Names(old(parts), which, i)
      ensures r.Ok? ==> Names(old(parts), which, r.value) && parts == Settled(Without(old(parts), r.value), target)
      ensures Sound(old(parts), target) ==> Sound(parts, target)
      ensures target.kind == Gpt && Exact(old(parts), target) ==> Exact(parts, target)
    {
      r := Resolve(parts, which);
      if r.Err? { return; }
      RemovedKeeps(parts, target, r.value);
      parts := Settle(Without(parts, r.value), target);
    }

    /** Give the partition a reference names another length, rounded up to a mebibyte. */
    method Resize(which: Ref, length: u64) returns (r: Result<nat>)
      modifies this`parts
      ensures r.Ok? <==> exists i: nat :: Names(old(parts), which, i) && CanResize(old(parts), target, i, length)
      ensures r.Err? ==> parts == old(parts)
      ensures r.Ok? ==>
        Names(old(parts), which, r.value) && RoundedSectors(length) >= 0 && RoundedSectors(length) * SECTOR < U64
      ensures r.Ok? ==> parts == Settled(old(parts)[r.value := Resized(old(parts)[r.value], length)], target)
      ensures r.Ok? ==> r.value < |parts| && Mebibytes(length, parts[r.value].length)
      ensures Sound(old(parts), target) ==> Sound(parts, target)
      ensures target.kind == Gpt && Exact(old(parts), target) ==> Exact(parts, target)
    {
      r := Resolve(parts, which);
      if r.Err? { return; }
      var made := PlanResize(parts, target, r.value, length);
      NamesOne(parts, which, r.value);
      if made.Err? { return Err(made.error); }
      ResizedKeeps(parts, target, r.value, length, made.value);
      ResizedLength(parts, target, r.value, length);
      parts := Settle(parts[r.value := made.value], target);
    }

    /** Write the table and record on each partition the slot it was written to. */
    method CommitMut(dev: Device, crc: Crc) returns (r: Result<seq<nat>>)
      requires dev.Valid()
      modifies this`parts, dev
      ensures dev.Valid() && |dev.bytes| == |old(dev.bytes)|
      ensures r.Err? ==> parts == old(parts) && dev.bytes == old(dev.bytes)
      ensures r.Ok? ==> Assigned(SlotsOf(old(parts)), target.SlotCount(), ReservedSlots(target.Reserved()), r.value)
      ensures r.Ok? ==> forall i :: 0 <= i < |r.value| ==> r.value[i] < 0x1_0000_0000
      ensures r.Ok? ==> parts == WithSlots(old(parts), r.value)
      ensures r.Ok? ==> Committed(old(dev.bytes), dev.bytes, old(parts), target, diskGuid, tails, r.value, crc)
      ensures dev.writable && Writable(old(parts), target, old(dev.bytes)) ==> r.Ok?
      ensures Sound(old(parts), target) ==> Sound(parts, target)
      ensures Exact(old(parts), target) ==> Exact(parts, target)
    {
      r := WriteTable(dev, parts, target, diskGuid, tails, crc);
      if r.Err? { return; }
      CommittedKeeps(parts, target, r.value);
      parts := WithSlots(parts, r.value);
    }

    /** A commit as far as the slots go. */
    method CommitSlots(dev: Device, crc: Crc) returns (r: Result<seq<nat>>)
      requires dev.Valid()
      modifies this`parts, dev
      ensures dev.Valid() && |dev.bytes| == |old(dev.bytes)|
      ensures r.Err? ==> parts == old(parts)
      ensures r.Ok? ==> Assigned(SlotsOf(old(parts)), target.SlotCount(), ReservedSlots(target.Reserved()), r.value)
      ensures r.Ok? ==> forall i :: 0 <= i < |r.value| ==> r.value[i] < 0x1_0000_0000
      ensures r.Ok? ==> parts == WithSlots(old(parts), r.value)
      ensures Sound(old(parts), target) ==> Sound(parts, target)
      ensures Exact(old(parts), target) ==> Exact(parts, target)
    {
      r := CommitMut(dev, crc);
    }

    /** A commit, which may be refused, leaves every partition itself. */
    method ApplyCommit(dev: Device, crc: Crc, ghost before: seq<Partition>, ghost from: seq<int>)
      requires dev.Valid() && Traces(before, parts, from)
      modifies this`parts, dev
      ensures dev.Valid() && |dev.bytes| == |old(dev.bytes)| && Traces(before, parts, from)
      ensures Sound(old(parts), target) ==> Sound(parts, target)
      ensures Exact(old(parts), target) ==> Exact(parts, target)
    {
      ghost var was := parts;
      var r := CommitSlots(dev, crc);
      if r.Ok? {
        TracesCommitted(before, was, from, target.SlotCount(), ReservedSlots(target.Reserved()), r.value);
      }
    }

    /** One edit, which may be refused. */
    method Apply(edit: Edit, dev: Device, crc: Crc, ghost before: seq<Partition>, ghost from: seq<int>)
      returns (ghost from': seq<int>)
      requires dev.Valid() && Traces(before, parts, from)
      modifies this`parts, dev
      ensures dev.Valid() && |dev.bytes| == |old(dev.bytes)|
      ensures Traces(before, parts, from') && Moves(edit, from, from')
      ensures Sound(old(parts), target) ==> Sound(parts, target)
      ensures target.kind == Gpt && Exact(old(parts), target) ==> Exact(parts, target)
    {
      ghost var was := parts;
      from' := from;
      match edit {
        case AddEdit(hint, length, id, name, uuid) =>
          var r := Add(hint, length, id, name, uuid);
          if r.Ok? {
            assert parts == was + [parts[|was|]];
            TracesAdd(before, was, from, parts[|was|]);
            from' := from + [ADDED];
          }
        case RemoveEdit(which) =>
          var r := Remove(which);
          if r.Ok? {
            TracesRemoved(before, was, from, r.value, target);
            from' := Without(from, r.value);
          }
        case ResizeEdit(which, length) =>
          var r := Resize(which, length);
          if r.Ok? { TracesResized(before, was, from, r.value, target, length); }
        case CommitEdit =>
          ApplyCommit(dev, crc, before, from);
      }
    }

    /** Any run of edits, each of which may be refused, keeps the set sound and its issues exact, and
        `from` says which partition each was: one that had a slot at the start still has it. */
    method Run(edits: seq<Edit>, dev: Device, crc: Crc) returns (ghost from: seq<int>)
      requires dev.Valid()
      modifies this`parts, dev
      ensures dev.Valid() && |dev.bytes| == |old(dev.bytes)| && Traces(old(parts), parts, from)
      ensures (forall k :: 0 <= k < |edits| ==> !edits[k].RemoveEdit?) ==> AllThere(|old(parts)|, from)
      ensures Sound(old(parts), target) ==> Sound(parts, target)
      ensures target.kind == Gpt && Exact(old(parts), target) ==> Exact(parts, target)
    {
      TracesSelf(parts);
      from := seq(|parts|, i => i);
      var k: nat := 0;
      while k < |edits|
        invariant k <= |edits| && dev.Valid() && |dev.bytes| == |old(dev.bytes)| && Traces(old(parts), parts, from)
        invariant (forall j :: 0 <= j < k ==> !edits[j].RemoveEdit?) ==> AllThere(|old(parts)|, from)
        invariant Sound(old(parts), target) ==> Sound(parts, target)
        invariant target.kind == Gpt && Exact(old(parts), target) ==> Exact(parts, target)
      {
        from := Apply(edits[k], dev, crc, old(parts), from);
        k := k + 1;
      }
    }

    /** A commit, any run of edits and another commit: every partition of the first commit that is
        still there is written to the same slot again. */
    method CommitEditCommit(edits: seq<Edit>, dev: Device, crc: Crc)
      returns (first: Result<seq<nat>>, last: Result<seq<nat>>, ghost from: seq<int>)
      requires dev.Valid()
      modifies this`parts, dev
      ensures dev.Valid() && |from| == |parts| && (first.Ok? ==> |first.value| == |old(parts)|)
      ensures last.Ok? ==> |last.value| == |parts|
      ensures first.Ok? && last.Ok? ==>
        forall i :: 0 <= i < |from| && from[i] != ADDED ==>
          0 <= from[i] < |first.value| && last.value[i] == first.value[from[i]] && parts[i].slot == Some(last.value[i])
    {
      ghost var start := parts;
      first := CommitSlots(dev, crc);
      from := Run(edits, dev, crc);
      ghost var later := parts;
      last := CommitSlots(dev, crc);
      if first.Ok? && last.Ok? {
        SurvivorsStay(start, first.value, later, from, target.SlotCount(), ReservedSlots(target.Reserved()),
                      last.value);
      }
    }
  }

  lemma {:induction false} PlaceInBytes(t: Target, start: int, sectors: int)
    requires t.Usable().first <= start && start + sectors - 1 <= t.Usable().last && sectors > 0
    ensures 0 <= start * SECTOR < U64 && 0 <= sectors * SECTOR < U64
  {
    UsableBounds(t);
  }
}
