/** An assembled md array: from its members to one flat run of bytes. */
module MdArrays {
  import opened Arithmetic
  import opened ChunkRead
  import opened GaloisField
  import opened ParityLayout
  import opened Raid0Zones
  import opened Raid10Placement
  import opened Raid5Recovery
  import opened Raid6Recovery
  import opened Raid6Survival
  import opened Wrappers

  const MAX_DISKS: nat := 1920
  const RAID0_ORIGINAL: nat := 1
  const RAID0_ALTERNATE: nat := 2

  /** A member in its slot: its device, and where the array's data is on it. */
  datatype Member = Member(device: seq<byte>, dataOffset: nat, dataSize: nat) {
    /** The array's data on this member. */
    function Data(): seq<byte> {
      if dataOffset <= |device| then device[dataOffset..] else []
    }
  }

  type Slots = seq<Option<Member>>

  /** The members as the chunk reader sees them. */
  function View(slots: Slots): (ms: Members)
    ensures |ms| == |slots|
    ensures forall s :: 0 <= s < |slots| ==> ms[s] == if slots[s].None? then None else Some(slots[s].value.Data())
  {
    seq(|slots|, s requires 0 <= s < |slots| => if slots[s].None? then None else Some(slots[s].value.Data()))
  }

  /** An assembled array. `perMember` is the component size its superblock records. */
  datatype MdArray = MdArray(slots: Slots, level: int, layout: nat, chunk: nat, size: nat, perMember: nat,
                             zones: seq<Zone>, raid10: Option<Raid10>) {
    function ToStriping(): Striping {
      Striping(level, layout, chunk, raid10)
    }

    predicate Zoned() {
      level == LEVEL_RAID0 || level == LEVEL_LINEAR
    }

    predicate Original() {
      layout == RAID0_ORIGINAL
    }
  }

  // ----- what assembly promises

  /** The members' usable sizes, by slot. */
  ghost predicate SizesOf(slots: Slots, sizes: seq<nat>) {
    && |sizes| == |slots|
    && forall s :: 0 <= s < |slots| ==> slots[s].Some? && sizes[s] <= |slots[s].value.Data()|
  }

  /** Linear zones: the members from slot `k` on, end to end from array byte `start`. */
  ghost predicate EndToEnd(zones: seq<Zone>, lens: seq<nat>, start: int, k: nat) {
    if zones == [] then k == |lens|
    else
      && k < |lens| && zones[0] == Zone(start, lens[k], 0, [k])
      && EndToEnd(zones[1..], lens, start + lens[k], k + 1)
  }

  ghost predicate GoodLinear(a: MdArray, sizes: seq<nat>) {
    && a.level == LEVEL_LINEAR && SizesOf(a.slots, sizes) && EndToEnd(a.zones, sizes, 0, 0)
    && a.size == TotalLen(a.zones)
  }

  ghost predicate GoodRaid0(a: MdArray, sizes: seq<nat>) {
    && a.level == LEVEL_RAID0 && a.chunk > 0 && SizesOf(a.slots, sizes)
    && Chain(a.zones, sizes, a.chunk, 0, 0) && a.size == TotalLen(a.zones)
    && (|a.zones| > 1 ==> a.layout == RAID0_ALTERNATE || a.layout == RAID0_ORIGINAL)
  }

  /** The array is linear or RAID0 over members of these usable sizes. */
  ghost predicate GoodZoned(a: MdArray, sizes: seq<nat>) {
    GoodLinear(a, sizes) || GoodRaid0(a, sizes)
  }

  ghost predicate GoodRaid1(a: MdArray) {
    && a.level == LEVEL_RAID1 && AllReach(View(a.slots), a.size)
    && exists s :: 0 <= s < |a.slots| && a.slots[s].Some?
  }

  /** Rows of a parity array. */
  function Rows(a: MdArray): nat
    requires a.chunk > 0
  {
    a.perMember / a.chunk
  }

  /** Array bytes of a parity array with `data` data chunks in a row. */
  function ParitySize(perMember: nat, chunk: nat, data: nat): nat
    requires chunk > 0
  {
    perMember / chunk * chunk * data
  }

  ghost predicate GoodParity(a: MdArray) {
    && a.level in {LEVEL_RAID4, LEVEL_RAID5, LEVEL_RAID6} && a.raid10.None? && Legal(a.ToStriping(), |a.slots|)
    && |AbsentSlots(View(a.slots))| <= ParityCount(a.level)
    && AllReach(View(a.slots), a.perMember)
    && a.size == ParitySize(a.perMember, a.chunk, DataCount(a.ToStriping(), |a.slots|))
  }

  ghost predicate GoodRaid10(a: MdArray) {
    && a.level == LEVEL_RAID10 && a.raid10.Some? && Legal(a.ToStriping(), |a.slots|)
    && Fits(a.raid10.value, |a.slots|, Rows(a)) && SurvivesRaid10(a.raid10.value, View(a.slots))
    && AllReach(View(a.slots), a.perMember)
    && exists chunks: nat :: Chunked(a, chunks)
  }

  /** The array is `chunks` chunks long, no more than the layout holds. */
  ghost predicate Chunked(a: MdArray, chunks: nat)
    requires a.raid10.Some? && a.raid10.value.near >= 1
  {
    chunks <= ArrayChunks(a.raid10.value, |a.slots|) && a.size == chunks * a.chunk
  }

  ghost predicate Assembled(a: MdArray) {
    && |a.slots| > 0
    && ((exists sizes :: GoodZoned(a, sizes)) || GoodRaid1(a) || GoodParity(a) || GoodRaid10(a))
  }

  // ----- the array as it was written

  /** The member byte that byte `pos` of a zoned array is. */
  function ZonedPlace(a: MdArray, pos: int): MemberByte
    requires FindZone(a.zones, pos) < |a.zones| && a.zones[FindZone(a.zones, pos)].slots != []
    requires a.level == LEVEL_RAID0 ==> a.chunk > 0
    requires a.Zoned()
  {
    var z := a.zones[FindZone(a.zones, pos)];
    if a.level == LEVEL_LINEAR then MemberByte(z.slots[0], z.devStart + (pos - z.start))
    else ZonePlace(z, a.chunk, a.Original(), pos)
  }

  ghost predicate ZonedByteStored(a: MdArray, truth: Truth, bytes: seq<byte>, pos: int) {
    && a.Zoned() && (a.level == LEVEL_RAID0 ==> a.chunk > 0)
    && FindZone(a.zones, pos) < |a.zones| && a.zones[FindZone(a.zones, pos)].slots != []
    && StoredAt(truth, ZonedPlace(a, pos).slot, ZonedPlace(a, pos).off, bytes, pos)
  }

  ghost predicate HoldsZoned(a: MdArray, truth: Truth, bytes: seq<byte>) {
    && |bytes| == a.size && Agrees(View(a.slots), truth)
    && forall pos :: 0 <= pos < a.size ==> ZonedByteStored(a, truth, bytes, pos)
  }

  ghost predicate HoldsMirrored(a: MdArray, truth: Truth, bytes: seq<byte>) {
    && |bytes| == a.size && Agrees(View(a.slots), truth)
    && forall m: nat, pos :: m < |truth| && 0 <= pos < a.size ==> StoredAt(truth, m, pos, bytes, pos)
  }

  ghost predicate HoldsStriped(a: MdArray, truth: Truth, bytes: seq<byte>) {
    && |bytes| == a.size && Agrees(View(a.slots), truth) && a.chunk > 0
    && (if a.raid10.Some? then
          exists chunks: nat :: a.size == chunks * a.chunk && HoldsRaid10(a.ToStriping(), truth, bytes, Rows(a), chunks)
        else HoldsParity(a.ToStriping(), truth, bytes, Rows(a)))
  }

  /** The members that are there agree with `truth`, which holds the array `bytes`: every
      data byte in its place, every copy the same, and the parity of every row right. */
  ghost predicate Holds(a: MdArray, truth: Truth, bytes: seq<byte>) {
    if a.Zoned() then HoldsZoned(a, truth, bytes)
    else if a.level == LEVEL_RAID1 then HoldsMirrored(a, truth, bytes)
    else HoldsStriped(a, truth, bytes)
  }

  // ----- zoned reads

  lemma {:induction false} ZonePlaceRun(z: Zone, chunk: nat, original: bool, pos: int, j: nat)
    requires chunk > 0 && z.slots != [] && z.start % chunk == 0 && pos >= z.start && j < chunk - (pos - z.start) % chunk
    ensures ZonePlace(z, chunk, original, pos + j)
         == MemberByte(ZonePlace(z, chunk, original, pos).slot, ZonePlace(z, chunk, original, pos).off + j)
  {
    var within := pos - z.start;
    DivModRecompose(within, chunk);
    DivModUnique(within + j, chunk, within / chunk, within % chunk + j);
    PlacePick(z, chunk, original, pos);
    PlacePick(z, chunk, original, pos + j);
  }

  lemma {:induction false} ChunkStaysInZone(within: int, len: int, chunk: int)
    requires chunk > 0 && len % chunk == 0 && 0 <= within < len
    ensures within + (chunk - within % chunk) <= len
  {
    DivModRecompose(within, chunk);
    DivModRecompose(len, chunk);
    if within / chunk >= len / chunk { MulMonotone(len / chunk, within / chunk, chunk); }
    MulMonotone(within / chunk + 1, len / chunk, chunk);
    assert (within / chunk + 1) * chunk == within / chunk * chunk + chunk;
  }

  /** Each zone ends before the next ones start. */
  ghost predicate InOrder(zones: seq<Zone>) {
    forall i, j :: 0 <= i < j < |zones| ==> zones[i].start + zones[i].len <= zones[j].start
  }

  lemma {:induction false} ChainInOrder(zones: seq<Zone>, sizes: seq<nat>, chunk: nat, start: int, prev: int)
    requires Chain(zones, sizes, chunk, start, prev)
    ensures InOrder(zones) && forall i :: 0 <= i < |zones| ==> start <= zones[i].start
  {
    if zones != [] {
      LenPositive(zones[0], sizes, chunk);
      ChainInOrder(zones[1..], sizes, chunk, start + zones[0].len, prev + Depth(zones[0]));
      forall i, j | 0 <= i < j < |zones|
        ensures zones[i].start + zones[i].len <= zones[j].start
      {
        if i > 0 { assert zones[1..][i - 1] == zones[i] && zones[1..][j - 1] == zones[j]; }
        else { assert zones[1..][j - 1] == zones[j]; }
      }
    }
  }

  lemma {:induction false} EndToEndInOrder(zones: seq<Zone>, lens: seq<nat>, start: int, k: nat)
    requires EndToEnd(zones, lens, start, k)
    ensures InOrder(zones) && TotalLen(zones) >= 0
    ensures forall i :: 0 <= i < |zones| ==>
      start <= zones[i].start && zones[i].start + zones[i].len <= start + TotalLen(zones)
  {
    if zones != [] {
      EndToEndInOrder(zones[1..], lens, start + lens[k], k + 1);
      forall i, j | 0 <= i < j < |zones|
        ensures zones[i].start + zones[i].len <= zones[j].start
      {
        if i > 0 { assert zones[1..][i - 1] == zones[i] && zones[1..][j - 1] == zones[j]; }
        else { assert zones[1..][j - 1] == zones[j]; }
      }
    }
  }

  /** The zone of a byte is one member's, and the byte is inside it. */
  lemma {:induction false} EndToEndPlace(zones: seq<Zone>, lens: seq<nat>, start: int, k: nat, pos: int)
    requires EndToEnd(zones, lens, start, k) && start <= pos < start + TotalLen(zones)
    ensures
      var i := FindZone(zones, pos);
      && i < |zones| && zones[i].devStart == 0 && |zones[i].slots| == 1
      && zones[i].slots[0] < |lens| && zones[i].len == lens[zones[i].slots[0]]
  {
    if !InZone(zones[0], pos) {
      EndToEndPlace(zones[1..], lens, start + lens[k], k + 1, pos);
    }
  }

  lemma {:induction false} FindZoneRun(zones: seq<Zone>, pos: int, j: nat)
    requires InOrder(zones) && FindZone(zones, pos) < |zones| && InZone(zones[FindZone(zones, pos)], pos + j)
    ensures FindZone(zones, pos + j) == FindZone(zones, pos)
  {
    if !InZone(zones[0], pos) {
      var i := FindZone(zones, pos);
      assert zones[0].start + zones[0].len <= zones[i].start;
      FindZoneRun(zones[1..], pos, j);
    }
  }

  /** Bytes from `pos` to the end of its zone or chunk. */
  function Run(a: MdArray, pos: int): int
    requires a.Zoned() && FindZone(a.zones, pos) < |a.zones| && (a.level == LEVEL_RAID0 ==> a.chunk > 0)
  {
    var z := a.zones[FindZone(a.zones, pos)];
    if a.level == LEVEL_LINEAR then z.len - (pos - z.start) else a.chunk - (pos - z.start) % a.chunk
  }

  /** Byte `pos` is in a zone, and a run of bytes follows it there. */
  ghost predicate RunFound(a: MdArray, pos: int) {
    && a.Zoned() && (a.level == LEVEL_RAID0 ==> a.chunk > 0)
    && FindZone(a.zones, pos) < |a.zones| && a.zones[FindZone(a.zones, pos)].slots != []
    && Run(a, pos) > 0
  }

  /** Byte `j` of the run at `pos` is byte `j` on from the same member byte, inside its usable size. */
  ghost predicate RunOn(a: MdArray, sizes: seq<nat>, pos: int, j: nat)
    requires RunFound(a, pos)
  {
    var m := ZonedPlace(a, pos);
    && pos + j < a.size && FindZone(a.zones, pos + j) == FindZone(a.zones, pos)
    && ZonedPlace(a, pos + j) == MemberByte(m.slot, m.off + j)
    && m.slot < |sizes| && 0 <= m.off && m.off + j < sizes[m.slot]
  }

  lemma {:induction false} ZonedRun(a: MdArray, sizes: seq<nat>, pos: int)
    requires GoodZoned(a, sizes) && 0 <= pos < a.size
    ensures RunFound(a, pos)
    ensures forall j: nat :: j < Run(a, pos) ==> RunOn(a, sizes, pos, j)
  {
    if a.level == LEVEL_LINEAR {
      EndToEndPlace(a.zones, sizes, 0, 0, pos);
      forall j: nat | j < Run(a, pos)
        ensures RunOn(a, sizes, pos, j)
      {
        LinearRun(a, sizes, pos, j);
      }
    } else {
      ChainPlace(a.zones, sizes, a.chunk, a.Original(), 0, 0, pos);
      forall j: nat | j < Run(a, pos)
        ensures RunOn(a, sizes, pos, j)
      {
        Raid0Run(a, sizes, pos, j);
      }
    }
  }

  lemma {:induction false} LinearRun(a: MdArray, sizes: seq<nat>, pos: int, j: nat)
    requires GoodLinear(a, sizes) && 0 <= pos < a.size && RunFound(a, pos) && j < Run(a, pos)
    ensures RunOn(a, sizes, pos, j)
  {
    EndToEndPlace(a.zones, sizes, 0, 0, pos);
    EndToEndInOrder(a.zones, sizes, 0, 0);
    FindZoneRun(a.zones, pos, j);
  }

  lemma {:induction false} Raid0Run(a: MdArray, sizes: seq<nat>, pos: int, j: nat)
    requires GoodRaid0(a, sizes) && 0 <= pos < a.size && RunFound(a, pos) && j < Run(a, pos)
    ensures RunOn(a, sizes, pos, j)
  {
    ChunkStaysInArray(a, sizes, pos, j);
    PlaceUsable(a, sizes, pos);
    PlaceUsable(a, sizes, pos + j);
    RunFromPlaces(a, sizes, pos, j, FindZone(a.zones, pos));
  }

  /** The byte is in zone `i`, on a usable byte of a member. */
  ghost predicate PlacedIn(a: MdArray, sizes: seq<nat>, pos: int, i: nat) {
    && a.level == LEVEL_RAID0 && a.chunk > 0 && pos < a.size
    && FindZone(a.zones, pos) == i < |a.zones| && a.zones[i].slots != []
    && Usable(sizes, ZonePlace(a.zones[i], a.chunk, a.Original(), pos))
  }

  lemma {:induction false} RunFromPlaces(a: MdArray, sizes: seq<nat>, pos: int, j: nat, i: nat)
    requires PlacedIn(a, sizes, pos, i) && PlacedIn(a, sizes, pos + j, i)
    requires a.zones[i].start % a.chunk == 0 && RunFound(a, pos) && j < Run(a, pos)
    ensures RunOn(a, sizes, pos, j)
  {
    FindZoneHas(a.zones, pos);
    ZonePlaceRun(a.zones[i], a.chunk, a.Original(), pos, j);
  }

  lemma {:induction false} FindZoneHas(zones: seq<Zone>, pos: int)
    requires FindZone(zones, pos) < |zones|
    ensures InZone(zones[FindZone(zones, pos)], pos)
  {
    if !InZone(zones[0], pos) { FindZoneHas(zones[1..], pos); }
  }

  lemma {:induction false} PlaceUsable(a: MdArray, sizes: seq<nat>, pos: int)
    requires GoodRaid0(a, sizes) && 0 <= pos < a.size
    ensures PlacedIn(a, sizes, pos, FindZone(a.zones, pos))
  {
    ChainPlace(a.zones, sizes, a.chunk, a.Original(), 0, 0, pos);
  }

  lemma {:induction false} ChunkStaysInArray(a: MdArray, sizes: seq<nat>, pos: int, j: nat)
    requires GoodRaid0(a, sizes) && 0 <= pos < a.size && RunFound(a, pos) && j < Run(a, pos)
    ensures pos + j < a.size && FindZone(a.zones, pos + j) == FindZone(a.zones, pos)
    ensures a.zones[FindZone(a.zones, pos)].start % a.chunk == 0
  {
    var i := FindZone(a.zones, pos);
    var z := a.zones[i];
    ChainPlace(a.zones, sizes, a.chunk, a.Original(), 0, 0, pos);
    LenInChunks(z, sizes, a.chunk);
    ChunkStaysInZone(pos - z.start, z.len, a.chunk);
    ChainInOrder(a.zones, sizes, a.chunk, 0, 0);
    FindZoneRun(a.zones, pos, j);
    ZoneInArray(a.zones, sizes, a.chunk, 0, 0, i);
  }

  lemma {:induction false} LenInChunks(z: Zone, sizes: seq<nat>, chunk: nat)
    requires ZoneFits(z, sizes, chunk, z.start, z.devStart)
    ensures z.len % chunk == 0
  {
    MultipleOf(Depth(z), |z.slots|, 0, chunk);
  }

  lemma {:induction false} ZoneInArray(zones: seq<Zone>, sizes: seq<nat>, chunk: nat, start: int, prev: int, i: nat)
    requires Chain(zones, sizes, chunk, start, prev) && i < |zones|
    ensures zones[i].start + zones[i].len <= start + TotalLen(zones)
  {
    ChainSlots(zones[1..], sizes, chunk, start + zones[0].len, prev + Depth(zones[0]));
    if i > 0 {
      ZoneInArray(zones[1..], sizes, chunk, start + zones[0].len, prev + Depth(zones[0]), i - 1);
    }
  }

  /** Read from `pos` to the end of its zone or chunk, or of the buffer. */
  method ReadZoned(a: MdArray, ms: Members, pos: nat, buf: array<byte>, lo: nat, ghost sizes: seq<nat>)
    returns (take: nat)
    requires GoodZoned(a, sizes) && ms == View(a.slots) && pos < a.size && lo < buf.Length
    modifies buf
    ensures 0 < take <= buf.Length - lo && RunFound(a, pos) && take <= Run(a, pos)
    ensures forall j :: lo <= j < lo + take ==>
      buf[j] == Visible(ms, ZonedPlace(a, pos).slot, ZonedPlace(a, pos).off + (j - lo))
    ensures SameOutside(buf, lo, take)
  {
    ZonedRun(a, sizes, pos);
    var run := Run(a, pos);
    take := if run < buf.Length - lo then run else buf.Length - lo;
    assert RunOn(a, sizes, pos, take - 1);
    var m := ZonedPlace(a, pos);
    var got := ReadMember(ms, m.slot, m.off, buf, lo, take);
    assert got.Read?;
  }

  // ----- reading the array

  datatype ReadOutcome = Done | OutOfBounds | Unreadable

  method ReadZonedExact(a: MdArray, ms: Members, pos: nat, buf: array<byte>, lo: nat, ghost sizes: seq<nat>,
                        ghost truth: Truth, ghost bytes: seq<byte>)
    returns (take: nat)
    requires GoodZoned(a, sizes) && ms == View(a.slots) && HoldsZoned(a, truth, bytes) && lo < buf.Length
    requires pos + (buf.Length - lo) <= a.size
    modifies buf
    ensures 0 < take <= buf.Length - lo && |bytes| == a.size
    ensures forall j :: lo <= j < lo + take ==> buf[j] == bytes[pos + (j - lo)]
    ensures SameOutside(buf, lo, take)
  {
    take := ReadZoned(a, ms, pos, buf, lo, sizes);
    forall j | lo <= j < lo + take
      ensures buf[j] == bytes[pos + (j - lo)]
    {
      ZonedExact(a, sizes, truth, bytes, pos, j - lo);
    }
  }

  /** Read a zoned array run by run. */
  method ReadAllZoned(a: MdArray, ms: Members, offset: nat, buf: array<byte>, ghost sizes: seq<nat>,
                      ghost truth: Truth, ghost bytes: seq<byte>)
    requires GoodZoned(a, sizes) && ms == View(a.slots) && HoldsZoned(a, truth, bytes) && offset + buf.Length <= a.size
    modifies buf
    ensures buf[..] == bytes[offset..offset + buf.Length]
  {
    var done := 0;
    while done < buf.Length
      invariant 0 <= done <= buf.Length
      invariant forall j :: 0 <= j < done ==> buf[j] == bytes[offset + j]
    {
      var take := ReadZonedExact(a, ms, offset + done, buf, done, sizes, truth, bytes);
      done := done + take;
    }
  }

  lemma {:induction false} ZonedExact(a: MdArray, sizes: seq<nat>, truth: Truth, bytes: seq<byte>, pos: int, j: nat)
    requires GoodZoned(a, sizes) && HoldsZoned(a, truth, bytes) && 0 <= pos < a.size && RunFound(a, pos)
    requires j < Run(a, pos)
    ensures pos + j < |bytes|
    ensures Visible(View(a.slots), ZonedPlace(a, pos).slot, ZonedPlace(a, pos).off + j) == bytes[pos + j]
  {
    ZonedRun(a, sizes, pos);
    assert RunOn(a, sizes, pos, j);
    assert ZonedByteStored(a, truth, bytes, pos + j);
  }

  /** The first member that is there has the whole array. */
  method ReadRaid1(a: MdArray, ms: Members, offset: nat, buf: array<byte>, ghost truth: Truth, ghost bytes: seq<byte>)
    returns (ok: bool)
    requires GoodRaid1(a) && ms == View(a.slots) && HoldsMirrored(a, truth, bytes) && offset + buf.Length <= a.size
    modifies buf
    ensures ok && buf[..] == bytes[offset..offset + buf.Length]
  {
    var i := 0;
    while i < |ms|
      invariant 0 <= i <= |ms|
      invariant forall s :: 0 <= s < i ==> ms[s].None?
    {
      var got := ReadMember(ms, i, offset, buf, 0, buf.Length);
      if got.Read? {
        forall j | 0 <= j < buf.Length
          ensures buf[j] == bytes[offset + j]
        {
          assert StoredAt(truth, i, offset + j, bytes, offset + j);
        }
        return true;
      }
      i := i + 1;
    }
    ok := false;
  }

  /** The chunk of an array byte is a chunk of the array. */
  lemma {:induction false} ChunkOfByte(pos: nat, chunk: nat, chunks: nat)
    requires chunk > 0 && pos < chunks * chunk
    ensures pos / chunk < chunks && pos / chunk >= 0 && pos == pos / chunk * chunk + pos % chunk
  {
    DivBelow(pos, chunk, chunks);
    DivModRecompose(pos, chunk);
    DivNonNegative(pos, chunk);
  }

  ghost predicate GoodStriped(a: MdArray) {
    GoodParity(a) || GoodRaid10(a)
  }

  /** Past this many members RAID6 cannot tell every pair of lost chunks apart. */
  predicate WithinLimit(a: MdArray) {
    a.level == LEVEL_RAID6 ==> |a.slots| <= MemberLimit(a.layout)
  }

  lemma {:induction false} StripedReadable(a: MdArray, pos: nat, len: nat)
    requires GoodStriped(a) && pos < a.size && pos % a.chunk + len <= a.chunk && WithinLimit(a)
    ensures ChunkReadable(a.ToStriping(), View(a.slots), pos / a.chunk, pos % a.chunk, len)
  {
    var (s, ms) := (a.ToStriping(), View(a.slots));
    if a.raid10.Some? {
      var chunks: nat :| Chunked(a, chunks);
      ChunkOfByte(pos, a.chunk, chunks);
      DivModRecompose(a.perMember, a.chunk);
      assert AllReach(ms, Rows(a) * a.chunk);
      Raid10Survives(s, ms, Rows(a), pos / a.chunk, pos % a.chunk, len);
    } else {
      ParityChunkOfByte(a, pos);
      DivModRecompose(a.perMember, a.chunk);
      assert AllReach(ms, Rows(a) * a.chunk);
      ParitySurvives(s, ms, Rows(a), pos / a.chunk, pos % a.chunk, len);
    }
  }

  lemma {:induction false} Reorder(a: nat, b: nat, c: nat)
    ensures a * b * c == a * c * b
  {}

  lemma {:induction false} ParityChunkOfByte(a: MdArray, pos: nat)
    requires GoodParity(a) && pos < a.size
    ensures pos / a.chunk < Rows(a) * DataCount(a.ToStriping(), |a.slots|)
    ensures pos == pos / a.chunk * a.chunk + pos % a.chunk
  {
    var data := DataCount(a.ToStriping(), |a.slots|);
    Reorder(Rows(a), a.chunk, data);
    ChunkOfByte(pos, a.chunk, Rows(a) * data);
  }

  lemma {:induction false} StripedExact(a: MdArray, truth: Truth, bytes: seq<byte>, pos: nat, len: nat, j: nat)
    requires GoodStriped(a) && HoldsStriped(a, truth, bytes) && pos < a.size && pos % a.chunk + len <= a.chunk
    requires j < len
    requires ChunkReadable(a.ToStriping(), View(a.slots), pos / a.chunk, pos % a.chunk, len)
    ensures ChunkByte(a.ToStriping(), View(a.slots), pos / a.chunk, pos % a.chunk, len, j) == ByteAt(bytes, pos + j)
  {
    var (s, ms) := (a.ToStriping(), View(a.slots));
    var (k, within) := (pos / a.chunk, pos % a.chunk);
    if a.raid10.Some? {
      var chunks: nat :| a.size == chunks * a.chunk && HoldsRaid10(s, truth, bytes, Rows(a), chunks);
      ChunkOfByte(pos, a.chunk, chunks);
      Raid10ByteExact(s, ms, truth, bytes, Rows(a), chunks, k, within, len, j);
    } else {
      ParityChunkOfByte(a, pos);
      ParityPieceByte(s, ms, truth, bytes, Rows(a), k, within, len, j);
    }
  }

  /** Read a striped array chunk by chunk. */
  method ReadStriped(t: Tables, a: MdArray, ms: Members, offset: nat, buf: array<byte>, ghost truth: Truth,
                     ghost bytes: seq<byte>) returns (ok: bool)
    requires t.Valid() && GoodStriped(a) && ms == View(a.slots) && HoldsStriped(a, truth, bytes)
    requires offset + buf.Length <= a.size
    modifies buf
    ensures ok ==> buf[..] == bytes[offset..offset + buf.Length]
    ensures WithinLimit(a) ==> ok
  {
    var s := a.ToStriping();
    var done := 0;
    while done < buf.Length
      invariant 0 <= done <= buf.Length
      invariant forall j :: 0 <= j < done ==> buf[j] == bytes[offset + j]
    {
      var pos := offset + done;
      DivNonNegative(pos, a.chunk);
      DivModRecompose(pos, a.chunk);
      var (k, within) := (pos / a.chunk, pos % a.chunk);
      var take := if a.chunk - within < buf.Length - done then a.chunk - within else buf.Length - done;
      if WithinLimit(a) { StripedReadable(a, pos, take); }
      ok := ReadChunk(t, s, ms, k, within, buf, done, take);
      if !ok { return; }
      forall j | done <= j < done + take
        ensures buf[j] == bytes[offset + j]
      {
        StripedExact(a, truth, bytes, pos, take, j - done);
      }
      done := done + take;
    }
    ok := true;
  }

  /** Read `buf` at `offset` of the array: exactly the array's bytes there. */
  method ReadAt(a: MdArray, offset: nat, buf: array<byte>, ghost truth: Truth, ghost bytes: seq<byte>)
    returns (r: ReadOutcome)
    requires Assembled(a) && Holds(a, truth, bytes)
    modifies buf
    ensures r.OutOfBounds? <==> offset + buf.Length > a.size
    ensures r.OutOfBounds? ==> buf[..] == old(buf[..])
    ensures r.Done? ==> buf[..] == bytes[offset..offset + buf.Length]
    ensures offset + buf.Length <= a.size && WithinLimit(a) ==> r.Done?
  {
    if offset + buf.Length > a.size {
      return OutOfBounds;
    }
    var ms := View(a.slots);
    var ok := true;
    if a.level == LEVEL_RAID1 {
      ok := ReadRaid1(a, ms, offset, buf, truth, bytes);
    } else if a.level == LEVEL_RAID0 || a.level == LEVEL_LINEAR {
      ghost var sizes :| GoodZoned(a, sizes);
      ReadAllZoned(a, ms, offset, buf, sizes, truth, bytes);
    } else {
      var t := BuildTables();
      ok := ReadStriped(t, a, ms, offset, buf, truth, bytes);
    }
    r := if ok then Done else Unreadable;
  }
}
